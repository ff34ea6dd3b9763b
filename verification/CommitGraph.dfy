/**
 * `gix-commitgraph/src/{init,access,verify}.rs` and `file/{access,commit,verify}.rs`: commits stored in a chain
 * of files and addressed by their position in the chain, and the verification of their generation numbers.
 */
module CommitGraph {
  import opened Bytes
  import opened Sequences
  import opened Wrappers

  const GENERATION_NUMBER_MAX: nat := 0x3fff_ffff
  const MAX_COMMITS: nat := 0x6fff_ffff
  const MAX_FILES: nat := 256

  /** An object id: its first byte, and the number that the other bytes spell. */
  datatype Id = Id(first: Byte, rest: nat)

  const NULL_ID: Id := Id(0, 0)

  predicate Less(a: Id, b: Id) {
    a.first < b.first || (a.first == b.first && a.rest < b.rest)
  }

  datatype Edge = NoEdge | GraphPosition(pos: nat) | ExtraEdges(index: nat)

  datatype ExtraEdge = ExtraEdge(pos: nat, last: bool)

  datatype Commit = Commit(id: Id, hasTree: bool, generation: nat, parent1: Edge, parent2: Edge)

  /** `intact` is the outcome of comparing the checksum with the content and with the file's name. */
  datatype File = File(fan: seq<nat>, commits: seq<Commit>, extra: Option<seq<ExtraEdge>>, hash: nat, checksum: nat,
                       intact: bool, baseCount: nat, baseIds: seq<nat>, parentLimit: nat)

  type Graph = seq<File>

  // -------------------------------------------------------------------------------------------------
  // Positions.
  // -------------------------------------------------------------------------------------------------

  /** The number of commits in the first `n` files. */
  function Offset(files: Graph, n: nat): nat
    requires n <= |files|
  {
    if n == 0 then 0 else Offset(files, n - 1) + |files[n - 1].commits|
  }

  function NumCommits(files: Graph): nat {
    Offset(files, |files|)
  }

  predicate InFile(files: Graph, at: (nat, nat)) {
    at.0 < |files| && at.1 < |files[at.0].commits|
  }

  /** The file a position among the first `n` files falls into, and the place in that file. */
  function Locate(files: Graph, n: nat, pos: nat): (at: (nat, nat))
    requires n <= |files| && pos < Offset(files, n)
    ensures InFile(files, at) && at.0 < n && Offset(files, at.0) + at.1 == pos
  {
    if pos >= Offset(files, n - 1) then (n - 1, pos - Offset(files, n - 1)) else Locate(files, n - 1, pos)
  }

  lemma {:induction false} OffsetGrows(files: Graph, i: nat, n: nat)
    requires i <= n <= |files|
    ensures Offset(files, i) <= Offset(files, n)
  {
    if i < n { OffsetGrows(files, i, n - 1); }
  }

  /** Different places have different positions. */
  lemma {:induction false} LocateInverse(files: Graph, n: nat, at: (nat, nat))
    requires InFile(files, at) && at.0 < n <= |files|
    ensures Offset(files, at.0) + at.1 < Offset(files, n)
    ensures Locate(files, n, Offset(files, at.0) + at.1) == at
  {
    OffsetGrows(files, at.0 + 1, n);
    if at.0 < n - 1 {
      LocateInverse(files, n - 1, at);
    }
  }

  // -------------------------------------------------------------------------------------------------
  // Parents.
  // -------------------------------------------------------------------------------------------------

  datatype ParentError =
    | SecondWithoutFirst
    | FirstIsExtra
    | NoExtraEdges
    | EdgesOverflow
    | OutOfRange(pos: nat)

  /** What iterating over parents yields, up to its end or an error. */
  datatype Yields = Yields(positions: seq<nat>, error: Option<ParentError>)

  function Yield(pos: nat, limit: nat, rest: Yields): Yields {
    if pos < limit then Yields([pos] + rest.positions, rest.error) else Yields([], Some(OutOfRange(pos)))
  }

  /** The entries of the extra edge list from `k` on up to the one marked last, all of them below `limit`. */
  function ExtraParents(extra: seq<ExtraEdge>, k: nat, limit: nat): Yields
    decreases |extra| - k
  {
    if k >= |extra| then Yields([], Some(EdgesOverflow))
    else Yield(extra[k].pos, limit, if extra[k].last then Yields([], None) else ExtraParents(extra, k + 1, limit))
  }

  function SecondParents(c: Commit, file: File): Yields {
    match c.parent2
    case NoEdge => Yields([], None)
    case GraphPosition(pos) => Yield(pos, file.parentLimit, Yields([], None))
    case ExtraEdges(index) =>
      if file.extra.None? then Yields([], Some(NoExtraEdges))
      else ExtraParents(file.extra.value, index, file.parentLimit)
  }

  function AllParents(c: Commit, file: File): Yields {
    match c.parent1
    case NoEdge => Yields([], if c.parent2.NoEdge? then None else Some(SecondWithoutFirst))
    case ExtraEdges(_) => Yields([], Some(FirstIsExtra))
    case GraphPosition(pos) => Yield(pos, file.parentLimit, SecondParents(c, file))
  }

  /** The parents of a commit, unless there is an error among them. */
  function Parents(c: Commit, file: File): Option<seq<nat>> {
    var all := AllParents(c, file);
    if all.error.None? then Some(all.positions) else None
  }

  datatype ParentState = First | Second | Extra(at: nat) | Exhausted

  /** The iterator over the parents of a commit. */
  class ParentIter {
    const commit: Commit
    const file: File
    var state: ParentState

    constructor (commit: Commit, file: File)
      ensures Valid() && this.commit == commit && this.file == file && Coming() == AllParents(commit, file)
    {
      this.commit, this.file, state := commit, file, First;
    }

    ghost predicate Valid()
      reads this
    {
      state.Extra? ==> file.extra.Some?
    }

    ghost function Coming(): Yields
      requires Valid()
      reads this
    {
      match state
      case First => AllParents(commit, file)
      case Second => SecondParents(commit, file)
      case Extra(at) => ExtraParents(file.extra.value, at, file.parentLimit)
      case Exhausted => Yields([], None)
    }

    ghost function Ahead(): nat
      requires Valid()
      reads this
    {
      |Coming().positions| + if Coming().error.Some? then 1 else 0
    }

    method Next() returns (r: Option<Result<nat, ParentError>>)
      requires Valid()
      modifies this
      ensures Valid()
      ensures match r
              case None => old(Coming()) == Yields([], None) && Coming() == Yields([], None)
              case Some(Err(e)) => old(Coming()) == Yields([], Some(e)) && Coming() == Yields([], None)
              case Some(Ok(p)) =>
                && old(Coming()).positions == [p] + Coming().positions && old(Coming()).error == Coming().error
                && p < file.parentLimit
    {
      r := Step();
      if r.Some? && r.value.Ok? && r.value.value >= file.parentLimit {
        state := Exhausted;
        r := Some(Err(OutOfRange(r.value.value)));
      }
    }

    /** The next parent behind `ps`, of all that iterating over a commit yields. */
    method Resume(ghost all: Yields, ghost ps: seq<nat>) returns (r: Option<Result<nat, ParentError>>)
      requires Valid() && all == Yields(ps + Coming().positions, Coming().error)
      modifies this
      ensures Valid() && Continues(all, ps, r, Coming(), file.parentLimit)
      ensures if r.Some? then Ahead() < old(Ahead()) else Ahead() == 0
    {
      r := Next();
    }

    /** One step before a position is compared with the limit. */
    method Step() returns (r: Option<Result<nat, ParentError>>)
      requires Valid()
      modifies this
      ensures Valid()
      ensures match r
              case None => old(Coming()) == Yields([], None) && Coming() == Yields([], None)
              case Some(Err(e)) => old(Coming()) == Yields([], Some(e)) && Coming() == Yields([], None)
              case Some(Ok(p)) => old(Coming()) == Yield(p, file.parentLimit, Coming())
    {
      var before := state;
      state := Exhausted;
      match before
      case First =>
        match commit.parent1 {
          case NoEdge => r := if commit.parent2.NoEdge? then None else Some(Err(SecondWithoutFirst));
          case GraphPosition(pos) => state, r := Second, Some(Ok(pos));
          case ExtraEdges(_) => r := Some(Err(FirstIsExtra));
        }
      case Second =>
        match commit.parent2 {
          case NoEdge => r := None;
          case GraphPosition(pos) => r := Some(Ok(pos));
          case ExtraEdges(index) =>
            if file.extra.None? {
              r := Some(Err(NoExtraEdges));
            } else if index > |file.extra.value| {
              r := Some(Err(EdgesOverflow));
            } else {
              r := FromExtra(index);
            }
        }
      case Extra(at) => r := FromExtra(at);
      case Exhausted => r := None;
    }

    method FromExtra(at: nat) returns (r: Option<Result<nat, ParentError>>)
      requires file.extra.Some? && state.Exhausted?
      modifies this
      ensures Valid()
      ensures var all := ExtraParents(file.extra.value, at, file.parentLimit);
              match r
              case None => false
              case Some(Err(e)) => all == Yields([], Some(e)) && Coming() == Yields([], None)
              case Some(Ok(p)) => all == Yield(p, file.parentLimit, Coming())
    {
      var extra := file.extra.value;
      if at >= |extra| { return Some(Err(EdgesOverflow)); }
      if !extra[at].last { state := Extra(at + 1); }
      r := Some(Ok(extra[at].pos));
    }
  }

  // What the parents of a commit are, entry by entry.

  /** The entries `k..e` of the list end with the first one from `k` on that is marked last. */
  predicate ExtraUpTo(extra: seq<ExtraEdge>, k: nat, e: nat) {
    k < e <= |extra| && extra[e - 1].last && forall x :: k <= x < e - 1 ==> !extra[x].last
  }

  predicate PositionsOf(extra: seq<ExtraEdge>, k: nat, e: nat, ps: seq<nat>) {
    k <= e <= |extra| && |ps| == e - k && forall x :: 0 <= x < |ps| ==> ps[x] == extra[k + x].pos
  }

  ghost predicate Lists(extra: seq<ExtraEdge>, k: nat, ps: seq<nat>) {
    exists e :: ExtraUpTo(extra, k, e) && PositionsOf(extra, k, e, ps)
  }

  predicate AllBelow(ps: seq<nat>, limit: nat) {
    forall x :: 0 <= x < |ps| ==> ps[x] < limit
  }

  ghost predicate AreSecond(c: Commit, file: File, ps: seq<nat>) {
    match c.parent2
    case NoEdge => ps == []
    case GraphPosition(pos) => ps == [pos]
    case ExtraEdges(index) => file.extra.Some? && Lists(file.extra.value, index, ps)
  }

  /** No parents; or the first one, and then none, the second one, or those of the extra edge list. */
  ghost predicate AreParents(c: Commit, file: File, ps: seq<nat>) {
    && AllBelow(ps, file.parentLimit)
    && match c.parent1
       case NoEdge => c.parent2.NoEdge? && ps == []
       case GraphPosition(pos) => ps != [] && ps[0] == pos && AreSecond(c, file, ps[1..])
       case ExtraEdges(_) => false
  }

  lemma OneExactly(pos: nat, limit: nat, ps: seq<nat>)
    ensures Yield(pos, limit, Yields([], None)) == Yields(ps, None) <==> AllBelow(ps, limit) && ps == [pos]
  {
    assert [pos] + [] == [pos];
    if ps == [pos] { assert ps[0] == pos; }
  }

  lemma {:induction false} ExtraExactly(extra: seq<ExtraEdge>, k: nat, limit: nat, ps: seq<nat>)
    ensures ExtraParents(extra, k, limit) == Yields(ps, None) <==> AllBelow(ps, limit) && Lists(extra, k, ps)
    decreases |extra| - k
  {
    if k < |extra| {
      if extra[k].last {
        OneExactly(extra[k].pos, limit, ps);
        LastLists(extra, k, ps);
      } else {
        if ps != [] {
          ExtraExactly(extra, k + 1, limit, ps[1..]);
          assert ps == [ps[0]] + ps[1..];
          BelowNext(ps, limit);
        }
        MoreLists(extra, k, ps);
      }
    }
  }

  lemma BelowNext(ps: seq<nat>, limit: nat)
    requires ps != []
    ensures AllBelow(ps, limit) <==> ps[0] < limit && AllBelow(ps[1..], limit)
  {
    if ps[0] < limit && AllBelow(ps[1..], limit) {
      forall x | 0 <= x < |ps| ensures ps[x] < limit {
        if x > 0 { assert ps[1..][x - 1] < limit; }
      }
    }
  }

  lemma LastLists(extra: seq<ExtraEdge>, k: nat, ps: seq<nat>)
    requires k < |extra| && extra[k].last
    ensures Lists(extra, k, ps) <==> ps == [extra[k].pos]
  {
    if ps == [extra[k].pos] {
      assert ExtraUpTo(extra, k, k + 1) && PositionsOf(extra, k, k + 1, ps);
    }
  }

  lemma MoreLists(extra: seq<ExtraEdge>, k: nat, ps: seq<nat>)
    requires k < |extra| && !extra[k].last
    ensures Lists(extra, k, ps) <==> ps != [] && ps[0] == extra[k].pos && Lists(extra, k + 1, ps[1..])
  {
    if e: nat :| ExtraUpTo(extra, k, e) && PositionsOf(extra, k, e, ps) {
      assert ExtraUpTo(extra, k + 1, e) && PositionsOf(extra, k + 1, e, ps[1..]);
    }
    if ps != [] && ps[0] == extra[k].pos && Lists(extra, k + 1, ps[1..]) {
      var e: nat :| ExtraUpTo(extra, k + 1, e) && PositionsOf(extra, k + 1, e, ps[1..]);
      forall x | 0 <= x < |ps| ensures ps[x] == extra[k + x].pos {
        if x > 0 { assert ps[x] == ps[1..][x - 1]; }
      }
      assert ExtraUpTo(extra, k, e) && PositionsOf(extra, k, e, ps);
    }
  }

  lemma SecondExactly(c: Commit, file: File, ps: seq<nat>)
    ensures SecondParents(c, file) == Yields(ps, None) <==> AllBelow(ps, file.parentLimit) && AreSecond(c, file, ps)
  {
    if c.parent2.GraphPosition? {
      OneExactly(c.parent2.pos, file.parentLimit, ps);
    } else if c.parent2.ExtraEdges? && file.extra.Some? {
      ExtraExactly(file.extra.value, c.parent2.index, file.parentLimit, ps);
    }
  }

  /** Iterating without an error yields exactly the parents. */
  lemma ParentsExactly(c: Commit, file: File, ps: seq<nat>)
    ensures Parents(c, file) == Some(ps) <==> AreParents(c, file, ps)
  {
    if ps != [] {
      SecondExactly(c, file, ps[1..]);
      BelowNext(ps, file.parentLimit);
      assert ps == [ps[0]] + ps[1..];
    }
  }

  lemma ParentsLimited(c: Commit, file: File)
    requires Parents(c, file).Some?
    ensures forall p :: p in Parents(c, file).value ==> p < file.parentLimit
  {
    ParentsExactly(c, file, Parents(c, file).value);
  }

  /** A commit with the positions of its parents, unless they are malformed. */
  datatype Node = Node(commit: Commit, parents: Option<seq<nat>>)

  function NodeIn(files: Graph, at: (nat, nat)): Node
    requires InFile(files, at)
  {
    var c := files[at.0].commits[at.1];
    Node(c, Parents(c, files[at.0]))
  }

  /** All commits of the chain by position. */
  ghost function All(files: Graph): (all: seq<Node>)
    ensures |all| == NumCommits(files)
  {
    seq(NumCommits(files), pos requires 0 <= pos < NumCommits(files) => NodeIn(files, Locate(files, |files|, pos)))
  }

  /** The commit at every place is the one at its position. */
  ghost predicate Spread(files: Graph, all: seq<Node>) {
    && |all| == NumCommits(files)
    && forall at {:trigger NodeIn(files, at)} :: InFile(files, at) ==>
         Offset(files, at.0) + at.1 < |all| && all[Offset(files, at.0) + at.1] == NodeIn(files, at)
  }

  lemma AllAt(files: Graph, at: (nat, nat))
    requires InFile(files, at)
    ensures Offset(files, at.0) + at.1 < NumCommits(files)
    ensures All(files)[Offset(files, at.0) + at.1] == NodeIn(files, at)
  {
    LocateInverse(files, |files|, at);
  }

  lemma AllSpread(files: Graph)
    ensures Spread(files, All(files))
  {
    forall at | InFile(files, at)
      ensures Offset(files, at.0) + at.1 < NumCommits(files)
           && All(files)[Offset(files, at.0) + at.1] == NodeIn(files, at)
    {
      AllAt(files, at);
    }
  }

  // -------------------------------------------------------------------------------------------------
  // Assembly and access.
  // -------------------------------------------------------------------------------------------------

  /** Parents may only be commits of the same or an earlier file. */
  predicate Assembled(files: Graph) {
    |files| > 0 && forall k :: 0 <= k < |files| ==> files[k].parentLimit == Offset(files, k + 1)
  }

  predicate SameButLimits(files: Graph, out: Graph) {
    |out| == |files| && forall k :: 0 <= k < |files| ==> out[k] == files[k].(parentLimit := out[k].parentLimit)
  }

  lemma {:induction false} OffsetSame(files: Graph, out: Graph, n: nat)
    requires SameButLimits(files, out) && n <= |files|
    ensures Offset(out, n) == Offset(files, n)
  {
    if n > 0 { OffsetSame(files, out, n - 1); }
  }

  predicate SameHash(files: Graph) {
    forall k :: 0 < k < |files| ==> files[k].hash == files[0].hash
  }

  method New(files: Graph) returns (r: Option<Graph>)
    ensures r.Some? <==> 0 < |files| <= MAX_FILES && NumCommits(files) <= MAX_COMMITS && SameHash(files)
    ensures r.Some? ==> Assembled(r.value) && SameButLimits(files, r.value)
  {
    if |files| > MAX_FILES || files == [] { return None; }
    var total := 0;
    for i := 0 to |files|
      invariant total == Offset(files, i)
    {
      total := total + |files[i].commits|;
    }
    if total > MAX_COMMITS { return None; }
    for i := 1 to |files|
      invariant forall k :: 0 < k < i ==> files[k].hash == files[0].hash
    {
      if files[i - 1].hash != files[i].hash { return None; }
    }
    var out := SetLimits(files);
    r := Some(out);
  }

  method SetLimits(files: Graph) returns (out: Graph)
    requires files != []
    ensures Assembled(out) && SameButLimits(files, out)
  {
    var limit := 0;
    out := [];
    for i := 0 to |files|
      invariant limit == Offset(files, i) && |out| == i
      invariant forall k :: 0 <= k < i ==> out[k] == files[k].(parentLimit := Offset(files, k + 1))
    {
      limit := limit + |files[i].commits|;
      out := out + [files[i].(parentLimit := limit)];
    }
    LimitsSet(files, out);
  }

  lemma LimitsSet(files: Graph, out: Graph)
    requires |out| == |files| > 0
          && forall k :: 0 <= k < |files| ==> out[k] == files[k].(parentLimit := Offset(files, k + 1))
    ensures Assembled(out) && SameButLimits(files, out)
  {
    forall k | 0 <= k < |files| ensures out[k].parentLimit == Offset(out, k + 1) {
      OffsetSame(files, out, k + 1);
    }
  }

  method LookupByPos(files: Graph, pos: nat) returns (at: (nat, nat))
    requires pos < NumCommits(files)
    ensures InFile(files, at) && Offset(files, at.0) + at.1 == pos
  {
    var file: nat, remaining: nat := 0, pos;
    while remaining >= |files[file].commits|
      invariant file < |files| && Offset(files, file) + remaining == pos
      decreases |files| - file
    {
      remaining := remaining - |files[file].commits|;
      file := file + 1;
    }
    at := (file, remaining);
  }

  // -------------------------------------------------------------------------------------------------
  // Lookup by id.
  // -------------------------------------------------------------------------------------------------

  /** What opening a file makes sure of: the fan-out table never falls and ends with the number of commits. */
  predicate Fans(fan: seq<nat>, count: nat) {
    |fan| == 256 && fan[255] == count && forall a, b :: 0 <= a <= b < 256 ==> fan[a] <= fan[b]
  }

  method CheckFan(fan: seq<nat>, count: nat) returns (ok: bool)
    requires |fan| == 256
    ensures ok <==> Fans(fan, count)
  {
    for i := 1 to 256
      invariant forall a, b :: 0 <= a <= b < i ==> fan[a] <= fan[b]
    {
      if fan[i - 1] > fan[i] { return false; }
    }
    ok := fan[255] == count;
  }

  ghost predicate Opened(files: Graph) {
    forall k :: 0 <= k < |files| ==> Fans(files[k].fan, |files[k].commits|)
  }

  predicate SortedIds(commits: seq<Commit>) {
    forall i, j :: 0 <= i < j < |commits| ==> Less(commits[i].id, commits[j].id)
  }

  /** Binary search. */
  function Search(commits: seq<Commit>, id: Id, lower: nat, upper: nat): (r: Option<nat>)
    requires upper <= |commits|
    ensures r.Some? ==> lower <= r.value < upper && commits[r.value].id == id
    decreases upper - lower
  {
    if lower >= upper then None
    else
      var mid := (lower + upper) / 2;
      if Less(id, commits[mid].id) then Search(commits, id, lower, mid)
      else if id == commits[mid].id then Some(mid)
      else Search(commits, id, mid + 1, upper)
  }

  lemma {:induction false} SearchFinds(commits: seq<Commit>, k: nat, lower: nat, upper: nat)
    requires SortedIds(commits) && lower <= k < upper <= |commits|
    ensures Search(commits, commits[k].id, lower, upper) == Some(k)
    decreases upper - lower
  {
    var mid := (lower + upper) / 2;
    if k < mid {
      SearchFinds(commits, k, lower, mid);
    } else if k > mid {
      SearchFinds(commits, k, mid + 1, upper);
    }
  }

  function FanStart(fan: seq<nat>, b: Byte): nat
    requires |fan| == 256
  {
    if b == 0 then 0 else fan[b - 1]
  }

  /** What `File::lookup` finds: it searches only between two entries of the fan-out table. */
  function FindInFile(file: File, id: Id): (r: Option<nat>)
    requires Fans(file.fan, |file.commits|)
  {
    Search(file.commits, id, FanStart(file.fan, id.first), file.fan[id.first])
  }

  method LookupInFile(file: File, id: Id) returns (r: Option<nat>)
    requires Fans(file.fan, |file.commits|)
    ensures r == FindInFile(file, id)
    ensures r.Some? ==> r.value < |file.commits| && file.commits[r.value].id == id
  {
    var commits := file.commits;
    var upper := file.fan[id.first];
    var lower := if id.first != 0 then file.fan[id.first - 1] else 0;
    while lower < upper
      invariant 0 <= lower && 0 <= upper <= |commits|
      invariant Search(commits, id, lower, upper) == FindInFile(file, id)
    {
      var mid := (lower + upper) / 2;
      if Less(id, commits[mid].id) {
        upper := mid;
      } else if id == commits[mid].id {
        return Some(mid);
      } else {
        lower := mid + 1;
      }
    }
    r := None;
  }

  /** The commit stands where the fan-out table says ids with its first byte are. */
  predicate InFan(file: File, k: nat)
    requires |file.fan| == 256 && k < |file.commits|
  {
    var b := file.commits[k].id.first;
    FanStart(file.fan, b) <= k < file.fan[b]
  }

  predicate FanCovers(file: File)
    requires |file.fan| == 256
  {
    forall k :: 0 <= k < |file.commits| ==> InFan(file, k)
  }

  lemma InFanIsFound(file: File, k: nat)
    requires Fans(file.fan, |file.commits|) && SortedIds(file.commits) && k < |file.commits|
    ensures InFan(file, k) <==> FindInFile(file, file.commits[k].id) == Some(k)
  {
    var b := file.commits[k].id.first;
    if InFan(file, k) { SearchFinds(file.commits, k, FanStart(file.fan, b), file.fan[b]); }
  }

  /** What the lookup in the files from `i` on finds, as a position in the chain. */
  function FindFrom(files: Graph, i: nat, id: Id): Option<nat>
    requires Opened(files) && i <= |files|
    decreases |files| - i
  {
    if i == |files| then None
    else
      match FindInFile(files[i], id)
      case Some(k) => Some(Offset(files, i) + k)
      case None => FindFrom(files, i + 1, id)
  }

  /** What is found is at one place in one file, with the id that was asked for. */
  lemma {:induction false} FoundAt(files: Graph, i: nat, id: Id) returns (at: (nat, nat))
    requires Opened(files) && i <= |files| && FindFrom(files, i, id).Some?
    ensures InFile(files, at) && FindFrom(files, i, id) == Some(Offset(files, at.0) + at.1)
    ensures FindInFile(files[at.0], id) == Some(at.1) && files[at.0].commits[at.1].id == id
    decreases |files| - i
  {
    if FindInFile(files[i], id).Some? {
      at := (i, FindInFile(files[i], id).value);
    } else {
      at := FoundAt(files, i + 1, id);
    }
  }

  method Lookup(files: Graph, id: Id) returns (r: Option<nat>)
    requires Opened(files)
    ensures r == FindFrom(files, 0, id)
    ensures r.Some? ==> r.value < NumCommits(files) && All(files)[r.value].commit.id == id
  {
    var start: nat := 0;
    for i := 0 to |files|
      invariant start == Offset(files, i)
      invariant FindFrom(files, i, id) == FindFrom(files, 0, id)
    {
      var found := LookupInFile(files[i], id);
      if found.Some? {
        AllAt(files, (i, found.value));
        return Some(start + found.value);
      }
      start := start + |files[i].commits|;
    }
    r := None;
  }

  /** No two commits share an id. */
  ghost predicate UniqueIds(all: seq<Node>) {
    forall p, q :: 0 <= p < q < |all| ==> all[p].commit.id != all[q].commit.id
  }

  lemma UniquePlace(files: Graph, at: (nat, nat), other: (nat, nat))
    requires UniqueIds(All(files)) && InFile(files, at) && InFile(files, other)
    requires files[at.0].commits[at.1].id == files[other.0].commits[other.1].id
    ensures at == other
  {
    AllAt(files, at);
    AllAt(files, other);
    LocateInverse(files, |files|, at);
    LocateInverse(files, |files|, other);
  }

  lemma {:induction false} FoundFrom(files: Graph, i: nat, at: (nat, nat))
    requires Opened(files) && UniqueIds(All(files)) && InFile(files, at) && i <= at.0
    requires FindInFile(files[at.0], files[at.0].commits[at.1].id) == Some(at.1)
    ensures FindFrom(files, i, files[at.0].commits[at.1].id) == Some(Offset(files, at.0) + at.1)
    decreases at.0 - i
  {
    var id := files[at.0].commits[at.1].id;
    if i < at.0 {
      if FindInFile(files[i], id).Some? { UniquePlace(files, at, (i, FindInFile(files[i], id).value)); }
      FoundFrom(files, i + 1, at);
    }
  }

  /** Lookup inverts reading the id at a position. */
  ghost predicate LookupInverts(files: Graph)
    requires Opened(files)
  {
    forall p :: 0 <= p < NumCommits(files) ==> FindFrom(files, 0, All(files)[p].commit.id) == Some(p)
  }

  ghost predicate AllFansCover(files: Graph)
    requires Opened(files)
  {
    forall k :: 0 <= k < |files| ==> FanCovers(files[k])
  }

  /** On sorted files with unique ids, no id is lost exactly if every fan-out table covers its file. */
  lemma FanDecidesLookup(files: Graph)
    requires Opened(files) && UniqueIds(All(files)) && forall k :: 0 <= k < |files| ==> SortedIds(files[k].commits)
    ensures LookupInverts(files) <==> AllFansCover(files)
  {
    if AllFansCover(files) {
      forall p | 0 <= p < NumCommits(files)
        ensures FindFrom(files, 0, All(files)[p].commit.id) == Some(p)
      {
        var at := Locate(files, |files|, p);
        InFanIsFound(files[at.0], at.1);
        FoundFrom(files, 0, at);
      }
    }
    if LookupInverts(files) {
      forall k, j | 0 <= k < |files| && 0 <= j < |files[k].commits|
        ensures InFan(files[k], j)
      {
        AllAt(files, (k, j));
        var at := FoundAt(files, 0, files[k].commits[j].id);
        UniquePlace(files, (k, j), at);
      }
    }
  }

  // -------------------------------------------------------------------------------------------------
  // What verification checks.
  // -------------------------------------------------------------------------------------------------

  function Max(a: nat, b: nat): nat {
    if a > b then a else b
  }

  predicate ValidPositions(all: seq<Node>, ps: seq<nat>) {
    forall k :: 0 <= k < |ps| ==> ps[k] < |all|
  }

  /** The largest generation among the first `n` of the given commits, or zero. */
  function MaxGeneration(all: seq<Node>, ps: seq<nat>, n: nat): nat
    requires ValidPositions(all, ps) && n <= |ps|
  {
    if n == 0 then 0 else Max(MaxGeneration(all, ps, n - 1), all[ps[n - 1]].commit.generation)
  }

  lemma {:induction false} MaxGenerationBounds(all: seq<Node>, ps: seq<nat>, n: nat)
    requires ValidPositions(all, ps) && n <= |ps|
    ensures forall k :: 0 <= k < n ==> all[ps[k]].commit.generation <= MaxGeneration(all, ps, n)
    ensures MaxGeneration(all, ps, n) > 0 ==>
              exists k :: 0 <= k < n && all[ps[k]].commit.generation == MaxGeneration(all, ps, n)
  {
    if n > 0 {
      MaxGenerationBounds(all, ps, n - 1);
    }
  }

  function Expected(highestParent: nat): nat {
    if highestParent + 1 < GENERATION_NUMBER_MAX then highestParent + 1 else GENERATION_NUMBER_MAX
  }

  /** The parents can be listed, and the generation is one more than that of the highest parent, up to the cap. */
  ghost predicate GenerationOk(all: seq<Node>, pos: nat)
    requires pos < |all|
  {
    && all[pos].parents.Some?
    && var ps := all[pos].parents.value;
    && ValidPositions(all, ps)
    && (forall k :: 0 <= k < |ps| ==> all[ps[k]].commit.generation > 0)
    && all[pos].commit.generation == Expected(MaxGeneration(all, ps, |ps|))
  }

  /** All checks of a commit; `accepts` says which commits the caller's processor accepts. */
  ghost predicate CommitOk(all: seq<Node>, pos: nat, accepts: nat -> bool)
    requires pos < |all|
  {
    var c := all[pos].commit;
    GenerationOk(all, pos) && c.hasTree && c.id != NULL_ID && accepts(pos)
  }

  ghost predicate FileOk(files: Graph, i: nat)
    requires i < |files|
  {
    && files[i].intact && files[i].baseCount == i && SortedIds(files[i].commits)
    && (forall k :: 0 <= k < i && k < |files[i].baseIds| ==> files[i].baseIds[k] == files[k].checksum)
  }

  /** Everything that has to hold for verification to succeed. */
  ghost predicate Consistent(files: Graph, all: seq<Node>, accepts: nat -> bool) {
    && (forall i :: 0 <= i < |files| ==> FileOk(files, i))
    && (forall p :: 0 <= p < |all| ==> CommitOk(all, p, accepts))
    && UniqueIds(all)
  }

  // -------------------------------------------------------------------------------------------------
  // What verification means.
  // -------------------------------------------------------------------------------------------------

  ghost predicate IsParent(all: seq<Node>, child: nat, parent: nat) {
    child < |all| && all[child].parents.Some? && parent in all[child].parents.value
  }

  /** A walk from commit to parent. */
  ghost predicate IsPath(all: seq<Node>, path: seq<nat>) {
    && path != [] && ValidPositions(all, path)
    && (forall k :: 0 < k < |path| ==> IsParent(all, path[k - 1], path[k]))
  }

  ghost predicate Generations(all: seq<Node>) {
    forall p :: 0 <= p < |all| ==> GenerationOk(all, p)
  }

  /** Below the cap, generations fall by at least one with every step. */
  lemma {:induction false} GenerationsFall(all: seq<Node>, path: seq<nat>)
    requires Generations(all) && IsPath(all, path) && all[path[0]].commit.generation < GENERATION_NUMBER_MAX
    ensures 0 < all[path[|path| - 1]].commit.generation <= all[path[0]].commit.generation + 1 - |path|
  {
    if |path| == 1 {
      assert GenerationOk(all, path[0]);
    } else {
      var init := path[..|path| - 1];
      GenerationsFall(all, init);
      var child := init[|init| - 1];
      assert IsParent(all, child, path[|path| - 1]) && GenerationOk(all, child);
      MaxGenerationBounds(all, all[child].parents.value, |all[child].parents.value|);
    }
  }

  /** Below the cap, a commit heads a path with as many commits as its generation says. */
  lemma {:induction false} PathOfGeneration(all: seq<Node>, pos: nat) returns (path: seq<nat>)
    requires Generations(all) && pos < |all| && all[pos].commit.generation < GENERATION_NUMBER_MAX
    ensures IsPath(all, path) && path[0] == pos && |path| == all[pos].commit.generation
    decreases all[pos].commit.generation
  {
    assert GenerationOk(all, pos);
    var ps := all[pos].parents.value;
    MaxGenerationBounds(all, ps, |ps|);
    if all[pos].commit.generation == 1 {
      path := [pos];
    } else {
      var k :| 0 <= k < |ps| && all[ps[k]].commit.generation == MaxGeneration(all, ps, |ps|);
      var rest := PathOfGeneration(all, ps[k]);
      path := [pos] + rest;
    }
  }

  /** `n` is the number of edges of a longest path. */
  ghost predicate LongestPath(all: seq<Node>, n: nat) {
    && (forall path :: IsPath(all, path) ==> |path| - 1 <= n)
    && (if all == [] then n == 0 else exists path :: IsPath(all, path) && |path| - 1 == n)
  }

  /** No commit is an ancestor of itself. */
  ghost predicate Acyclic(all: seq<Node>) {
    forall path :: IsPath(all, path) && |path| > 1 ==> path[0] != path[|path| - 1]
  }

  /** `g` is the largest of the first `n` generations, or zero if there is none. */
  ghost predicate Highest(all: seq<Node>, n: nat, g: nat)
    requires n <= |all|
  {
    && (forall p :: 0 <= p < n ==> all[p].commit.generation <= g)
    && (if n == 0 then g == 0 else exists p :: 0 <= p < n && all[p].commit.generation == g)
  }

  /** If no generation is capped, the highest one tells the length of the longest path. */
  lemma GenerationsGiveLongestPath(all: seq<Node>, g: nat)
    requires Generations(all) && Highest(all, |all|, g) && g < GENERATION_NUMBER_MAX
    ensures LongestPath(all, if g == 0 then 0 else g - 1) && Acyclic(all)
  {
    forall path | IsPath(all, path)
      ensures |path| <= g && (|path| > 1 ==> path[0] != path[|path| - 1])
    {
      GenerationsFall(all, path);
    }
    if all != [] {
      var p :| 0 <= p < |all| && all[p].commit.generation == g;
      var path := PathOfGeneration(all, p);
    }
  }

  // -------------------------------------------------------------------------------------------------
  // Verification.
  // -------------------------------------------------------------------------------------------------

  datatype Outcome = Outcome(longestPathLength: Option<nat>, numCommits: nat, parentCounts: map<nat, nat>)

  /** What a processor of commits makes of its state, and whether it goes on. */
  type Processor<!S> = (S, Commit) -> (S, bool)

  /** The state of a processor that has seen the first `n` commits. */
  function Processed<S>(all: seq<Node>, n: nat, processor: Processor<S>, start: S): S
    requires n <= |all|
  {
    if n == 0 then start else processor(Processed(all, n - 1, processor, start), all[n - 1].commit).0
  }

  /** The processor accepts the commit at `p`, having seen all commits before it. */
  predicate Accepts<S>(all: seq<Node>, processor: Processor<S>, start: S, p: nat) {
    p < |all| && processor(Processed(all, p, processor, start), all[p].commit).1
  }

  function Acceptance<S>(all: seq<Node>, processor: Processor<S>, start: S): nat -> bool {
    (p: nat) => Accepts(all, processor, start, p)
  }

  // How many commits have how many parents.

  function ParentCount(node: Node): nat {
    if node.parents.Some? then |node.parents.value| else 0
  }

  /** The number of commits between `lo` and `hi` that have `k` parents. */
  function CountIn(all: seq<Node>, lo: nat, hi: nat, k: nat): nat
    requires lo <= hi <= |all|
    decreases hi - lo
  {
    if lo == hi then 0 else CountIn(all, lo, hi - 1, k) + if ParentCount(all[hi - 1]) == k then 1 else 0
  }

  function Times(counts: map<nat, nat>, k: nat): nat {
    if k in counts then counts[k] else 0
  }

  /** The map has exactly the numbers of parents that occur, with how often they do. */
  ghost predicate Tallies(counts: map<nat, nat>, all: seq<Node>, lo: nat, hi: nat) {
    && lo <= hi <= |all|
    && (forall k: nat :: Times(counts, k) == CountIn(all, lo, hi, k)) && forall k :: k in counts ==> counts[k] > 0
  }

  lemma TallyNext(counts: map<nat, nat>, all: seq<Node>, lo: nat, hi: nat)
    requires Tallies(counts, all, lo, hi) && hi < |all|
    ensures var k := ParentCount(all[hi]); Tallies(counts[k := Times(counts, k) + 1], all, lo, hi + 1)
  {
    var k := ParentCount(all[hi]);
    var next := counts[k := Times(counts, k) + 1];
    forall x: nat
      ensures Times(next, x) == CountIn(all, lo, hi + 1, x)
    {
      assert Times(counts, x) == CountIn(all, lo, hi, x);
    }
  }

  lemma {:induction false} CountJoin(all: seq<Node>, lo: nat, mid: nat, hi: nat, k: nat)
    requires lo <= mid <= hi <= |all|
    ensures CountIn(all, lo, hi, k) == CountIn(all, lo, mid, k) + CountIn(all, mid, hi, k)
    decreases hi - mid
  {
    if mid < hi { CountJoin(all, lo, mid, hi - 1, k); }
  }

  /** Adds the counts of a file to those of the files before it. */
  method AddCounts(counts: map<nat, nat>, more: map<nat, nat>) returns (sum: map<nat, nat>)
    ensures forall k: nat :: Times(sum, k) == Times(counts, k) + Times(more, k)
    ensures forall k :: k in sum ==> k in counts || k in more
  {
    var left := more.Keys;
    sum := counts;
    while left != {}
      invariant left <= more.Keys
      invariant forall k: nat :: Times(sum, k) == Times(counts, k) + if k in left then 0 else Times(more, k)
      invariant forall k :: k in sum ==> k in counts || k in more
      decreases |left|
    {
      var k :| k in left;
      sum, left := sum[k := Times(sum, k) + more[k]], left - {k};
    }
  }

  lemma TallyJoin(counts: map<nat, nat>, more: map<nat, nat>, sum: map<nat, nat>, all: seq<Node>, mid: nat, hi: nat)
    requires Tallies(counts, all, 0, mid) && Tallies(more, all, mid, hi)
    requires forall k: nat :: Times(sum, k) == Times(counts, k) + Times(more, k)
    requires forall k :: k in sum ==> k in counts || k in more
    ensures Tallies(sum, all, 0, hi)
  {
    forall k: nat
      ensures Times(sum, k) == CountIn(all, 0, hi, k)
    {
      CountJoin(all, 0, mid, hi, k);
      assert Times(counts, k) == CountIn(all, 0, mid, k) && Times(more, k) == CountIn(all, mid, hi, k);
    }
    forall k | k in sum
      ensures sum[k] > 0
    {
      assert Times(sum, k) == Times(counts, k) + Times(more, k);
    }
  }

  /** The generation checks of one commit. */
  method CheckGeneration(files: Graph, ghost all: seq<Node>, i: nat, j: nat) returns (ok: bool)
    requires Assembled(files) && InFile(files, (i, j))
    requires Spread(files, all) && Offset(files, i) + j < |all|
    ensures ok <==> GenerationOk(all, Offset(files, i) + j)
  {
    assert all[Offset(files, i) + j] == NodeIn(files, (i, j));
    var c := files[i].commits[j];
    var highest, uncomputed;
    ok, highest, uncomputed := GatherParents(files, all, i, c);
    ok := ok && c.generation != 0 && !uncomputed && c.generation == Expected(highest);
  }

  method GenerationAt(files: Graph, ghost all: seq<Node>, p: nat) returns (generation: nat)
    requires Spread(files, all) && p < |all|
    ensures generation == all[p].commit.generation
  {
    var at := LookupByPos(files, p);
    assert all[p] == NodeIn(files, at);
    generation := files[at.0].commits[at.1].generation;
  }

  /** The highest generation of the parents of a commit, and whether one of them has none. */
  method GatherParents(files: Graph, ghost all: seq<Node>, i: nat, c: Commit)
    returns (ok: bool, highest: nat, uncomputed: bool)
    requires Assembled(files) && i < |files| && Spread(files, all)
    ensures ok <==> Parents(c, files[i]).Some?
    ensures ok ==> Gathered(all, Parents(c, files[i]).value, highest, uncomputed)
  {
    highest, uncomputed := 0, false;
    ghost var ps: seq<nat> := [];
    LimitInGraph(files, i);
    var iter := new ParentIter(c, files[i]);
    var next := iter.Resume(AllParents(c, files[i]), []);
    while next.Some?
      invariant iter.Valid() && fresh(iter) && iter.file == files[i]
      invariant Continues(AllParents(c, files[i]), ps, next, iter.Coming(), files[i].parentLimit)
      invariant Gathered(all, ps, highest, uncomputed)
      decreases iter.Ahead() + if next.Some? then 1 else 0
    {
      if next.value.Err? { return false, highest, uncomputed; }
      var p := next.value.value;
      var generation := GenerationAt(files, all, p);
      GatheredNext(all, ps, p, highest, uncomputed);
      ContinuesNext(AllParents(c, files[i]), ps, p, iter.Coming(), files[i].parentLimit);
      highest, uncomputed, ps := Max(highest, generation), uncomputed || generation == 0, ps + [p];
      next := iter.Resume(AllParents(c, files[i]), ps);
    }
    ok := true;
  }

  /** `ps` was yielded before, `next` is what came then, and `coming` is still to come. */
  ghost predicate Continues(all: Yields, ps: seq<nat>, next: Option<Result<nat, ParentError>>, coming: Yields,
                            limit: nat)
  {
    match next
    case None => all == Yields(ps, None)
    case Some(Err(e)) => all == Yields(ps, Some(e))
    case Some(Ok(p)) => all == Yields(ps + ([p] + coming.positions), coming.error) && p < limit
  }

  lemma ContinuesNext(all: Yields, ps: seq<nat>, p: nat, coming: Yields, limit: nat)
    requires Continues(all, ps, Some(Ok(p)), coming, limit)
    ensures all == Yields((ps + [p]) + coming.positions, coming.error)
  {
    Regroup(ps, [p], coming.positions);
  }

  ghost predicate Gathered(all: seq<Node>, ps: seq<nat>, highest: nat, uncomputed: bool) {
    && ValidPositions(all, ps) && highest == MaxGeneration(all, ps, |ps|)
    && (uncomputed <==> exists x :: 0 <= x < |ps| && all[ps[x]].commit.generation == 0)
  }

  lemma GatheredNext(all: seq<Node>, ps: seq<nat>, p: nat, highest: nat, uncomputed: bool)
    requires Gathered(all, ps, highest, uncomputed) && p < |all|
    ensures var g := all[p].commit.generation; Gathered(all, ps + [p], Max(highest, g), uncomputed || g == 0)
  {
    MaxGenerationPrefix(all, ps, ps + [p], |ps|);
    assert (ps + [p])[|ps|] == p;
    assert forall x :: 0 <= x < |ps| ==> (ps + [p])[x] == ps[x];
  }

  lemma {:induction false} MaxGenerationPrefix(all: seq<Node>, ps: seq<nat>, qs: seq<nat>, n: nat)
    requires ValidPositions(all, ps) && ValidPositions(all, qs) && n <= |ps| && ps <= qs
    ensures MaxGeneration(all, qs, n) == MaxGeneration(all, ps, n)
  {
    if n > 0 { MaxGenerationPrefix(all, ps, qs, n - 1); }
  }

  lemma LimitInGraph(files: Graph, i: nat)
    requires Assembled(files) && i < |files|
    ensures files[i].parentLimit <= NumCommits(files)
  {
    OffsetGrows(files, i + 1, |files|);
  }

  /** Counts the parents of a commit, or meets an error. */
  method CountParents(c: Commit, file: File) returns (count: Option<nat>)
    ensures count == match Parents(c, file) case None => None case Some(ps) => Some(|ps|)
  {
    var iter := new ParentIter(c, file);
    var n := 0;
    ghost var ps: seq<nat> := [];
    var next := iter.Resume(AllParents(c, file), []);
    while next.Some?
      invariant iter.Valid() && fresh(iter) && iter.file == file && n == |ps|
      invariant Continues(AllParents(c, file), ps, next, iter.Coming(), file.parentLimit)
      decreases iter.Ahead() + if next.Some? then 1 else 0
    {
      if next.value.Err? { return None; }
      ContinuesNext(AllParents(c, file), ps, next.value.value, iter.Coming(), file.parentLimit);
      n, ps := n + 1, ps + [next.value.value];
      next := iter.Resume(AllParents(c, file), ps);
    }
    count := Some(n);
  }

  /** In a graph that fits together, parents are commits of the graph. */
  lemma ParentsInGraph(files: Graph, all: seq<Node>, i: nat, j: nat)
    requires Assembled(files) && InFile(files, (i, j)) && NodeIn(files, (i, j)).parents.Some?
    requires |all| == NumCommits(files)
    ensures ValidPositions(all, NodeIn(files, (i, j)).parents.value)
  {
    ParentsLimited(files[i].commits[j], files[i]);
    OffsetGrows(files, i + 1, |files|);
    var ps := NodeIn(files, (i, j)).parents.value;
    forall k | 0 <= k < |ps| ensures ps[k] < NumCommits(files) {
      assert ps[k] in ps;
    }
  }

  ghost function IdsBelow(all: seq<Node>, n: nat): set<Id>
    requires n <= |all|
  {
    set p | 0 <= p < n :: all[p].commit.id
  }

  /** The state of verification below a position. */
  ghost predicate Checked(all: seq<Node>, n: nat, accepts: nat -> bool, seen: set<Id>, highest: nat)
    requires n <= |all|
  {
    && (forall p :: 0 <= p < n ==> CommitOk(all, p, accepts))
    && seen == IdsBelow(all, n)
    && UniqueIds(all[..n]) && Highest(all, n, highest)
  }

  lemma CheckedNext(all: seq<Node>, n: nat, accepts: nat -> bool, seen: set<Id>, highest: nat)
    requires n < |all| && Checked(all, n, accepts, seen, highest)
    requires CommitOk(all, n, accepts) && all[n].commit.id !in seen
    ensures Checked(all, n + 1, accepts, seen + {all[n].commit.id}, Max(highest, all[n].commit.generation))
  {
    HighestNext(all, n, highest);
    assert seen + {all[n].commit.id} == IdsBelow(all, n + 1);
    forall p, q | 0 <= p < q < n + 1 ensures all[p].commit.id != all[q].commit.id {
      assert all[p].commit.id in seen;
      if q < n { assert all[..n][p] == all[p] && all[..n][q] == all[q]; }
    }
  }

  lemma HighestNext(all: seq<Node>, n: nat, g: nat)
    requires n < |all| && Highest(all, n, g)
    ensures Highest(all, n + 1, Max(g, all[n].commit.generation))
  {
    if n > 0 && g >= all[n].commit.generation {
      var p :| 0 <= p < n && all[p].commit.generation == g;
    }
  }

  /** All checks of one commit. */
  ghost predicate Passing(files: Graph, all: seq<Node>, i: nat, j: nat, accepts: nat -> bool, seen: set<Id>)
    requires InFile(files, (i, j)) && Offset(files, i) + j < |all|
  {
    var id := files[i].commits[j].id;
    && CommitOk(all, Offset(files, i) + j, accepts) && id !in seen
    && Less(if j == 0 then NULL_ID else files[i].commits[j - 1].id, id)
  }

  /** A commit that does not pass makes the graph inconsistent. */
  lemma ConsistentPasses(files: Graph, all: seq<Node>, i: nat, j: nat, accepts: nat -> bool, seen: set<Id>)
    requires InFile(files, (i, j)) && Spread(files, all) && Offset(files, i) + j < |all|
    requires seen == IdsBelow(all, Offset(files, i) + j)
    ensures Consistent(files, all, accepts) ==> Passing(files, all, i, j, accepts, seen)
  {
    assert all[Offset(files, i) + j] == NodeIn(files, (i, j));
    if Consistent(files, all, accepts) {
      assert FileOk(files, i);
    }
  }

  method CheckCommit<S>(files: Graph, ghost all: seq<Node>, i: nat, j: nat, processor: Processor<S>, state: S,
                        ghost accepts: nat -> bool, seen: set<Id>, previous: Id)
    returns (ok: bool, state': S)
    requires Assembled(files) && InFile(files, (i, j)) && Spread(files, all) && Offset(files, i) + j < |all|
    requires previous == if j == 0 then NULL_ID else files[i].commits[j - 1].id
    requires accepts(Offset(files, i) + j) <==> processor(state, files[i].commits[j]).1
    ensures ok <==> Passing(files, all, i, j, accepts, seen)
    ensures ok ==> state' == processor(state, files[i].commits[j]).0
  {
    var c := files[i].commits[j];
    state' := state;
    assert all[Offset(files, i) + j] == NodeIn(files, (i, j));
    var fits := CheckGeneration(files, all, i, j);
    ok := Less(previous, c.id) && c.hasTree && c.generation <= GENERATION_NUMBER_MAX && c.id !in seen && fits;
    if ok {
      var answer := processor(state, c);
      state', ok := answer.0, answer.1;
    }
  }

  /** The processor has seen the first `n` commits, and `accepts` tells what it says to the others. */
  ghost predicate Following<S>(all: seq<Node>, n: nat, processor: Processor<S>, start: S, state: S,
                               accepts: nat -> bool) {
    n <= |all| && state == Processed(all, n, processor, start) && accepts == Acceptance(all, processor, start)
  }

  /** What the walk over a file carries along. */
  datatype Progress<S> = Progress(state: S, seen: set<Id>, highest: nat, counts: map<nat, nat>)

  /** The first `j` commits of file `i` have passed. */
  ghost predicate Visited<S>(files: Graph, all: seq<Node>, i: nat, j: nat, processor: Processor<S>, start: S,
                             accepts: nat -> bool, at: Progress<S>)
    requires i < |files|
  {
    var base := Offset(files, i);
    && base + j <= |all| && j <= |files[i].commits| && SortedBelow(files[i].commits, j)
    && Checked(all, base + j, accepts, at.seen, at.highest)
    && Following(all, base + j, processor, start, at.state, accepts)
    && Tallies(at.counts, all, base, base + j)
  }

  lemma VisitedNext<S>(files: Graph, all: seq<Node>, i: nat, j: nat, processor: Processor<S>, start: S,
                       accepts: nat -> bool, at: Progress<S>, next: Progress<S>)
    requires i < |files| && Visited(files, all, i, j, processor, start, accepts, at)
    requires InFile(files, (i, j)) && Offset(files, i) + j < |all|
    requires all[Offset(files, i) + j] == NodeIn(files, (i, j))
    requires Passing(files, all, i, j, accepts, at.seen)
    requires next.state == processor(at.state, files[i].commits[j]).0
    requires next.seen == at.seen + {files[i].commits[j].id}
    requires next.highest == Max(at.highest, files[i].commits[j].generation)
    requires var k := ParentCount(all[Offset(files, i) + j]); next.counts == at.counts[k := Times(at.counts, k) + 1]
    ensures Visited(files, all, i, j + 1, processor, start, accepts, next)
  {
    var base := Offset(files, i);
    CheckedNext(all, base + j, accepts, at.seen, at.highest);
    SortedNext(files[i].commits, j);
    TallyNext(at.counts, all, base, base + j);
  }

  /** Visits one commit: it passes all checks, or the graph is inconsistent. */
  method VisitCommit<S>(files: Graph, ghost all: seq<Node>, i: nat, j: nat, processor: Processor<S>, ghost start: S,
                        ghost accepts: nat -> bool, at: Progress<S>, previous: Id)
    returns (ok: bool, next: Progress<S>)
    requires Assembled(files) && InFile(files, (i, j)) && Spread(files, all) && Offset(files, i) + j < |all|
    requires Visited(files, all, i, j, processor, start, accepts, at)
    requires previous == if j == 0 then NULL_ID else files[i].commits[j - 1].id
    ensures if ok then Visited(files, all, i, j + 1, processor, start, accepts, next)
            else next == at && !Consistent(files, all, accepts)
  {
    var c := files[i].commits[j];
    assert all[Offset(files, i) + j] == NodeIn(files, (i, j));
    ConsistentPasses(files, all, i, j, accepts, at.seen);
    var state;
    ok, state := CheckCommit(files, all, i, j, processor, at.state, accepts, at.seen, previous);
    next := at;
    if ok {
      var count := CountParents(c, files[i]);
      var k := count.value;
      next := Progress(state, at.seen + {c.id}, Max(at.highest, c.generation),
                       at.counts[k := Times(at.counts, k) + 1]);
      VisitedNext(files, all, i, j, processor, start, accepts, at, next);
    }
  }

  method Traverse<S>(files: Graph, ghost all: seq<Node>, i: nat, processor: Processor<S>, ghost start: S, state0: S,
                     ghost accepts: nat -> bool, seen0: set<Id>, highest0: nat)
    returns (ok: bool, state: S, seen: set<Id>, highest: nat, counts: map<nat, nat>)
    requires Assembled(files) && i < |files| && Spread(files, all) && Offset(files, i + 1) <= |all|
    requires Checked(all, Offset(files, i), accepts, seen0, highest0)
    requires Following(all, Offset(files, i), processor, start, state0, accepts)
    ensures ok ==> SortedIds(files[i].commits) && Checked(all, Offset(files, i + 1), accepts, seen, highest)
    ensures ok ==> Following(all, Offset(files, i + 1), processor, start, state, accepts)
    ensures ok ==> Tallies(counts, all, Offset(files, i), Offset(files, i + 1))
    ensures !ok ==> !Consistent(files, all, accepts)
  {
    var commits := files[i].commits;
    var previous, at := NULL_ID, Progress(state0, seen0, highest0, map[]);
    ok := true;
    for j := 0 to |commits|
      invariant Visited(files, all, i, j, processor, start, accepts, at)
      invariant ok && previous == if j == 0 then NULL_ID else commits[j - 1].id
    {
      ok, at := VisitCommit(files, all, i, j, processor, start, accepts, at, previous);
      if !ok { break; }
      previous := commits[j].id;
    }
    state, seen, highest, counts := at.state, at.seen, at.highest, at.counts;
  }

  predicate SortedBelow(commits: seq<Commit>, n: nat)
    requires n <= |commits|
  {
    forall x, y :: 0 <= x < y < n ==> Less(commits[x].id, commits[y].id)
  }

  lemma SortedNext(commits: seq<Commit>, n: nat)
    requires n < |commits| && SortedBelow(commits, n) && (n > 0 ==> Less(commits[n - 1].id, commits[n].id))
    ensures SortedBelow(commits, n + 1)
  {
  }

  method BaseGraphsAgree(files: Graph, i: nat) returns (ok: bool)
    requires i < |files|
    ensures ok <==> forall k :: 0 <= k < i && k < |files[i].baseIds| ==> files[i].baseIds[k] == files[k].checksum
  {
    var k := 0;
    while k < i && k < |files[i].baseIds|
      invariant k <= i && k <= |files[i].baseIds|
      invariant forall x :: 0 <= x < k ==> files[i].baseIds[x] == files[x].checksum
    {
      if files[i].baseIds[k] != files[k].checksum { return false; }
      k := k + 1;
    }
    ok := true;
  }

  /** What a successful verification with the given highest generation says. */
  ghost predicate Verdict(all: seq<Node>, highest: nat) {
    if highest < GENERATION_NUMBER_MAX then LongestPath(all, if highest == 0 then 0 else highest - 1) && Acyclic(all)
    else exists p :: 0 <= p < |all| && all[p].commit.generation == GENERATION_NUMBER_MAX
  }

  lemma VerifiedIsConsistent(files: Graph, all: seq<Node>, accepts: nat -> bool, seen: set<Id>, highest: nat)
    requires Checked(all, |all|, accepts, seen, highest) && forall k :: 0 <= k < |files| ==> FileOk(files, k)
    ensures Consistent(files, all, accepts) && Verdict(all, highest)
  {
    assert all[..|all|] == all;
    forall p | 0 <= p < |all| ensures GenerationOk(all, p) {
      assert CommitOk(all, p, accepts);
    }
    if highest < GENERATION_NUMBER_MAX {
      GenerationsGiveLongestPath(all, highest);
    } else {
      var p :| 0 <= p < |all| && all[p].commit.generation == highest;
      assert GenerationOk(all, p);
    }
  }

  /** What is known about the first `i` files and their commits, the first `n`. */
  ghost predicate Verified<S>(files: Graph, all: seq<Node>, i: nat, n: nat, processor: Processor<S>, start: S,
                              state: S, accepts: nat -> bool, seen: set<Id>, highest: nat, counts: map<nat, nat>) {
    && i <= |files| && n == Offset(files, i) <= |all|
    && Checked(all, n, accepts, seen, highest) && Tallies(counts, all, 0, n)
    && Following(all, n, processor, start, state, accepts)
    && forall k :: 0 <= k < i ==> FileOk(files, k)
  }

  method VerifyFile<S>(files: Graph, ghost all: seq<Node>, i: nat, ghost n: nat, processor: Processor<S>,
                       ghost start: S, state0: S, ghost accepts: nat -> bool, seen0: set<Id>, highest0: nat,
                       counts0: map<nat, nat>)
    returns (ok: bool, state: S, seen: set<Id>, highest: nat, counts: map<nat, nat>)
    requires Assembled(files) && Spread(files, all) && i < |files|
    requires Verified(files, all, i, n, processor, start, state0, accepts, seen0, highest0, counts0)
    ensures ok ==> Verified(files, all, i + 1, n + |files[i].commits|, processor, start, state, accepts, seen, highest,
                            counts)
    ensures !ok ==> !Consistent(files, all, accepts)
  {
    state, seen, highest, counts := state0, seen0, highest0, counts0;
    OffsetGrows(files, i + 1, |files|);
    var agree := BaseGraphsAgree(files, i);
    if files[i].baseCount != i || !agree || !files[i].intact {
      assert !FileOk(files, i);
      ok := false;
      return;
    }
    var more;
    ok, state, seen, highest, more := Traverse(files, all, i, processor, start, state, accepts, seen, highest);
    if ok {
      counts := AddCounts(counts0, more);
      TallyJoin(counts0, more, counts, all, n, Offset(files, i + 1));
      assert FileOk(files, i);
    }
  }

  method VerifyFiles<S>(files: Graph, ghost all: seq<Node>, processor: Processor<S>, start: S,
                        ghost accepts: nat -> bool)
    returns (ok: bool, state: S, highest: nat, total: nat, counts: map<nat, nat>)
    requires Assembled(files) && Spread(files, all) && accepts == Acceptance(all, processor, start)
    ensures ok <==> Consistent(files, all, accepts)
    ensures ok ==> total == |all| && Verdict(all, highest) && Tallies(counts, all, 0, |all|)
    ensures ok ==> state == Processed(all, |all|, processor, start)
  {
    var seen: set<Id> := {};
    state, highest, total, counts := start, 0, 0, map[];
    for i := 0 to |files|
      invariant Verified(files, all, i, total, processor, start, state, accepts, seen, highest, counts)
    {
      ok, state, seen, highest, counts :=
        VerifyFile(files, all, i, total, processor, start, state, accepts, seen, highest, counts);
      if !ok { return; }
      total := total + |files[i].commits|;
    }
    VerifiedIsConsistent(files, all, accepts, seen, highest);
    ok := true;
  }

  /** Succeeds exactly on consistent graphs; the length it reports is that of a longest path. */
  method VerifyIntegrity<S>(files: Graph, processor: Processor<S>, start: S) returns (r: Option<Outcome>, state: S)
    requires Assembled(files)
    ensures r.Some? <==> Consistent(files, All(files), Acceptance(All(files), processor, start))
    ensures r.Some? ==> state == Processed(All(files), NumCommits(files), processor, start)
    ensures r.Some? ==> r.value.numCommits == NumCommits(files)
    ensures r.Some? ==> Tallies(r.value.parentCounts, All(files), 0, NumCommits(files))
    ensures r.Some? && r.value.longestPathLength.Some? ==>
      LongestPath(All(files), r.value.longestPathLength.value) && Acyclic(All(files))
    ensures r.Some? && r.value.longestPathLength.None? ==>
      exists p :: 0 <= p < NumCommits(files) && All(files)[p].commit.generation == GENERATION_NUMBER_MAX
  {
    AllSpread(files);
    ghost var all := All(files);
    var ok, state', highest, total, counts :=
      VerifyFiles(files, all, processor, start, Acceptance(all, processor, start));
    state := state';
    if !ok { return None, state; }
    var longest := if highest == 0 then 0 else highest - 1;
    r := Some(Outcome(if highest < GENERATION_NUMBER_MAX then Some(longest) else None, total, counts));
  }

  /** In a verified graph, lookup inverts reading an id exactly if the fan-out tables cover their files. */
  lemma VerifiedLookup(files: Graph, accepts: nat -> bool)
    requires Opened(files) && Consistent(files, All(files), accepts)
    ensures LookupInverts(files) <==> AllFansCover(files)
  {
    forall k | 0 <= k < |files| ensures SortedIds(files[k].commits) {
      assert FileOk(files, k);
    }
    FanDecidesLookup(files);
  }

  // Verification does not look at the fan-out table. This graph opens and verifies, but its only id is not found.

  const LOST: Commit := Commit(Id(1, 0), true, 1, NoEdge, NoEdge)

  function LosingGraph(): Graph {
    [File(seq(256, b => if b == 255 then 1 else 0), [LOST], None, 0, 0, true, 0, [], 1)]
  }

  lemma FanLosesId()
    ensures Opened(LosingGraph()) && Assembled(LosingGraph())
    ensures Consistent(LosingGraph(), All(LosingGraph()), _ => true)
    ensures NumCommits(LosingGraph()) == 1 && All(LosingGraph())[0].commit == LOST
    ensures FindFrom(LosingGraph(), 0, LOST.id) == None
  {
    var files := LosingGraph();
    var all := All(files);
    assert Offset(files, 1) == Offset(files, 0) + 1 == 1;
    AllAt(files, (0, 0));
    assert all[0] == NodeIn(files, (0, 0)) == Node(LOST, Some([]));
    assert FileOk(files, 0);
    assert MaxGeneration(all, [], 0) == 0;
    assert CommitOk(all, 0, _ => true);
    assert FindInFile(files[0], LOST.id) == None;
  }
}
