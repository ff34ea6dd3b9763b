/**
 * `gix-fs/src/snapshot.rs`: a shared snapshot of a file that is reloaded when the file's modification time
 * has moved on. Any number of threads call `recent_snapshot` and `force_refresh` while the file is written,
 * deleted and created again; each action below happens at one instant, everything may happen in between.
 */
module Snapshot {
  import opened Wrappers

  /** `modified` is what the code records, `loaded` the modification time of the content it really read. */
  datatype FileSnapshot = FileSnapshot(modified: nat, loaded: nat)

  datatype Plan = Clear | Reload | Load

  /**
   * Where a thread is. `first` is the answer of the first modification time check of the call, `gone` whether
   * the file was deleted since.
   */
  datatype Thread =
    | Idle
    | Reading                                                                      // `get_ref` succeeded
    | Checked(first: Option<nat>, gone: bool)                                      // still holding the read lock
    | Waiting(plan: Plan, first: Option<nat>, gone: bool)                          // read lock dropped
    | Writing(plan: Plan, first: Option<nat>, gone: bool)                          // `get_mut` succeeded
    | Opening(first: Option<nat>, second: nat, gone: bool)                         // second check done
    | Opened(first: Option<nat>, second: nat, content: Option<nat>, gone: bool)    // content read, not yet stored
    | Returned(first: Option<nat>, result: Option<FileSnapshot>, gone: bool)
    | Refreshing                                                                   // `force_refresh` has the write lock
    | Timed(second: nat)
    | Refreshed(second: nat, content: Option<nat>)
  {
    predicate Reads() { Reading? || Checked? }
    predicate Writes() { Writing? || Opening? || Opened? || Refreshing? || Timed? || Refreshed? }

    /** What a deletion of the file means for a call that has begun. */
    function Deleted(): Thread {
      if Checked? || Waiting? || Writing? || Opening? || Opened? || Returned? then this.(gone := true) else this
    }
  }

  /** `clock` is the time of the last write; `file` is the modification time of the file if it exists. */
  datatype State = State(file: Option<nat>, clock: nat, cache: Option<FileSnapshot>, threads: seq<Thread>)

  ghost predicate Init(s: State) {
    && s.cache == None && (s.file.Some? ==> s.file.value == s.clock)
    && forall t :: 0 <= t < |s.threads| ==> s.threads[t] == Idle
  }

  predicate NoWriter(s: State) { forall t :: 0 <= t < |s.threads| ==> !s.threads[t].Writes() }
  predicate NoReader(s: State) { forall t :: 0 <= t < |s.threads| ==> !s.threads[t].Reads() }

  /** The snapshot to store for content read after the modification time `second`. */
  function Stored(second: nat, content: Option<nat>): Option<FileSnapshot> {
    match content
    case None => None
    case Some(c) => Some(FileSnapshot(second, c))
  }

  /** What the first modification time check makes a call do next. */
  function Decided(cache: Option<FileSnapshot>, first: Option<nat>, gone: bool): Thread {
    match (cache, first)
    case (None, None) => Returned(first, None, gone)
    case (Some(_), None) => Waiting(Clear, first, gone)
    case (Some(c), Some(m)) => if c.modified < m then Waiting(Reload, first, gone) else Returned(first, cache, gone)
    case (None, Some(_)) => Waiting(Load, first, gone)
  }

  /** One action of a thread in `recent_snapshot` or `force_refresh`. */
  ghost predicate Acts(s: State, pc: Thread, pc': Thread, cache': Option<FileSnapshot>) {
    match pc
    case Idle =>
      cache' == s.cache && ((pc' == Reading && NoWriter(s)) || (pc' == Refreshing && NoWriter(s) && NoReader(s)))
    case Reading => cache' == s.cache && pc' == Checked(s.file, false)
    case Checked(first, gone) => cache' == s.cache && pc' == Decided(s.cache, first, gone)
    case Waiting(plan, first, gone) =>
      cache' == s.cache && NoWriter(s) && NoReader(s) && pc' == Writing(plan, first, gone)
    case Writing(plan, first, gone) =>
      if plan == Clear then cache' == None && pc' == Returned(first, None, gone)
      else
        && cache' == s.cache
        && pc' == if s.file.Some? && s.cache.Some? == (plan == Reload) then Opening(first, s.file.value, gone)
                  else Returned(first, s.cache, gone)
    case Opening(first, second, gone) =>
      cache' == s.cache && (pc' == Opened(first, second, s.file, gone) || pc' == Idle)          // `open` may fail
    case Opened(first, second, content, gone) =>
      cache' == Stored(second, content) && pc' == Returned(first, cache', gone)
    case Returned(_, _, _) => cache' == s.cache && pc' == Idle
    case Refreshing =>
      if s.file.Some? then cache' == s.cache && (pc' == Timed(s.file.value) || pc' == Idle)
      else cache' == None && pc' == Idle
    case Timed(second) => cache' == s.cache && (pc' == Refreshed(second, s.file) || pc' == Idle)
    case Refreshed(second, content) => cache' == Stored(second, content) && pc' == Idle
  }

  /** The file is written, with a modification time later than all before, or deleted, or a thread acts. */
  ghost predicate Next(s: State, s': State) {
    || (s'.clock > s.clock && s'.file == Some(s'.clock) && s'.cache == s.cache && s'.threads == s.threads)
    || (s' == s.(file := None, threads := seq(|s.threads|, t requires 0 <= t < |s.threads| => s.threads[t].Deleted())))
    || (exists t :: 0 <= t < |s.threads| && ThreadStep(s, s', t))
  }

  ghost predicate ThreadStep(s: State, s': State, t: nat)
    requires t < |s.threads|
  {
    && |s'.threads| == |s.threads| && s'.file == s.file && s'.clock == s.clock
    && Acts(s, s.threads[t], s'.threads[t], s'.cache)
    && forall u :: 0 <= u < |s.threads| && u != t ==> s'.threads[u] == s.threads[u]
  }

  // -------------------------------------------------------------------------------------------------
  // What every reachable state satisfies.
  // -------------------------------------------------------------------------------------------------

  /** The recorded time never exceeds the time of the content, so a stale snapshot always looks stale. */
  predicate HonestSnapshot(s: State, snapshot: Option<FileSnapshot>) {
    snapshot.Some? ==> snapshot.value.modified <= snapshot.value.loaded <= s.clock
  }

  /** `loaded` is at least as new as the file was at the first check, if there was a file. */
  predicate AtLeast(first: Option<nat>, loaded: nat) { first.Some? ==> first.value <= loaded }

  /** What the call of one thread has learned so far holds, given the state of the file and the cache. */
  predicate CallOk(s: State, pc: Thread) {
    match pc
    case Idle => true
    case Reading => true
    case Refreshing => true
    case Checked(first, gone) => CheckOk(s, first, gone)
    case Waiting(plan, first, gone) => CheckOk(s, first, gone) && PlanOk(s, plan, first)
    case Writing(plan, first, gone) => CheckOk(s, first, gone) && PlanOk(s, plan, first)
    case Opening(first, second, gone) => CheckOk(s, first, gone) && second <= s.clock
    case Opened(first, second, content, gone) =>
      ContentOk(s, second, content) && (content.Some? ==> AtLeast(first, content.value))
    case Returned(first, result, gone) =>
      HonestSnapshot(s, result) && (!gone && result.Some? ==> AtLeast(first, result.value.loaded))
    case Timed(second) => second <= s.clock
    case Refreshed(second, content) => ContentOk(s, second, content)
  }

  predicate CheckOk(s: State, first: Option<nat>, gone: bool) {
    AtLeast(first, s.clock) && (first.Some? && !gone ==> s.file.Some?)
  }

  /** A call that found no snapshot finds none later, or one loaded after its check. */
  predicate PlanOk(s: State, plan: Plan, first: Option<nat>) {
    && (plan == Clear <==> first.None?)
    && (plan == Load && s.cache.Some? ==> AtLeast(first, s.cache.value.loaded))
  }

  predicate ContentOk(s: State, second: nat, content: Option<nat>) {
    content.Some? ==> second <= content.value <= s.clock
  }

  /** Content that is about to be stored was read after the check of every call that waits for the write lock. */
  predicate PairOk(writer: Thread, waiter: Thread) {
    var content := if writer.Opened? || writer.Refreshed? then writer.content else None;
    waiter.Waiting? && content.Some? ==> AtLeast(waiter.first, content.value)
  }

  /** Nobody else holds the lock while one writes. */
  predicate Exclusive(writer: Thread, other: Thread) {
    writer.Writes() ==> !other.Writes() && !other.Reads()
  }

  ghost predicate Inv(s: State) {
    && HonestSnapshot(s, s.cache)
    && (s.file.Some? ==> s.file.value == s.clock)
    && (forall t :: 0 <= t < |s.threads| ==> CallOk(s, s.threads[t]))
    && (forall t, u :: 0 <= t < |s.threads| && 0 <= u < |s.threads| ==> PairOk(s.threads[t], s.threads[u]))
    && (forall t, u :: 0 <= t < |s.threads| && 0 <= u < |s.threads| && t != u ==>
          Exclusive(s.threads[t], s.threads[u]))
  }

  lemma WriteKeepsInv(s: State, s': State)
    requires Inv(s) && s'.clock > s.clock && s'.file == Some(s'.clock) && s'.cache == s.cache && s'.threads == s.threads
    ensures Inv(s')
  {}

  lemma DeletionKeepsCall(s: State, s': State, pc: Thread)
    requires CallOk(s, pc) && s'.clock == s.clock && s'.cache == s.cache
    ensures CallOk(s', pc.Deleted())
  {}

  lemma DeletionKeepsPair(writer: Thread, waiter: Thread)
    requires PairOk(writer, waiter)
    ensures PairOk(writer.Deleted(), waiter.Deleted())
  {}

  lemma DeleteKeepsInv(s: State, s': State)
    requires Inv(s)
    requires s' == s.(file := None,
                      threads := seq(|s.threads|, t requires 0 <= t < |s.threads| => s.threads[t].Deleted()))
    ensures Inv(s')
  {
    forall t | 0 <= t < |s'.threads|
      ensures CallOk(s', s'.threads[t])
    {
      DeletionKeepsCall(s, s', s.threads[t]);
    }
    forall t, u | 0 <= t < |s'.threads| && 0 <= u < |s'.threads|
      ensures PairOk(s'.threads[t], s'.threads[u])
    {
      DeletionKeepsPair(s.threads[t], s.threads[u]);
    }
    forall t, u | 0 <= t < |s'.threads| && 0 <= u < |s'.threads| && t != u
      ensures Exclusive(s'.threads[t], s'.threads[u])
    {
      assert Exclusive(s.threads[t], s.threads[u]);
    }
  }

  /** The acting thread knows no more than is true. */
  lemma StepKeepsOwnCall(s: State, s': State, t: nat)
    requires Inv(s) && t < |s.threads| && ThreadStep(s, s', t)
    ensures HonestSnapshot(s', s'.cache) && CallOk(s', s'.threads[t])
  {
    assert CallOk(s, s.threads[t]);
  }

  /** Storing a snapshot does not hurt the calls that wait. */
  lemma StepKeepsOtherCall(s: State, s': State, t: nat, u: nat)
    requires Inv(s) && t < |s.threads| && ThreadStep(s, s', t) && u < |s.threads| && u != t
    ensures CallOk(s', s'.threads[u])
  {
    assert CallOk(s, s.threads[u]) && PairOk(s.threads[t], s.threads[u]) && CallOk(s, s.threads[t]);
  }

  /** Content is read under the write lock, after every check that was made under a read lock. */
  lemma StepKeepsPair(s: State, s': State, t: nat, u: nat, v: nat)
    requires Inv(s) && t < |s.threads| && ThreadStep(s, s', t) && u < |s.threads| && v < |s.threads|
    ensures PairOk(s'.threads[u], s'.threads[v])
  {
    assert PairOk(s.threads[u], s.threads[v]) && CallOk(s, s.threads[v]);
  }

  lemma StepKeepsLock(s: State, s': State, t: nat, u: nat, v: nat)
    requires Inv(s) && t < |s.threads| && ThreadStep(s, s', t) && u < |s.threads| && v < |s.threads| && u != v
    ensures Exclusive(s'.threads[u], s'.threads[v])
  {
    assert Exclusive(s.threads[u], s.threads[v]) && Exclusive(s.threads[v], s.threads[u]);
  }

  lemma StepKeepsInv(s: State, s': State, t: nat)
    requires Inv(s) && t < |s.threads| && ThreadStep(s, s', t)
    ensures Inv(s')
  {
    StepKeepsOwnCall(s, s', t);
    forall u | 0 <= u < |s'.threads| && u != t
      ensures CallOk(s', s'.threads[u])
    {
      StepKeepsOtherCall(s, s', t, u);
    }
    forall u, v | 0 <= u < |s'.threads| && 0 <= v < |s'.threads|
      ensures PairOk(s'.threads[u], s'.threads[v])
    {
      StepKeepsPair(s, s', t, u, v);
    }
    forall u, v | 0 <= u < |s'.threads| && 0 <= v < |s'.threads| && u != v
      ensures Exclusive(s'.threads[u], s'.threads[v])
    {
      StepKeepsLock(s, s', t, u, v);
    }
  }

  ghost predicate Run(run: seq<State>) {
    |run| > 0 && Init(run[0]) && forall i :: 0 <= i < |run| - 1 ==> Next(run[i], run[i + 1])
  }

  lemma {:induction false} InvAlways(run: seq<State>, k: nat)
    requires Run(run) && k < |run|
    ensures Inv(run[k])
  {
    if k > 0 {
      InvAlways(run, k - 1);
      var s, s' := run[k - 1], run[k];
      assert Next(run[k - 1], run[k - 1 + 1]);
      if s'.clock > s.clock && s'.file == Some(s'.clock) && s'.cache == s.cache && s'.threads == s.threads {
        WriteKeepsInv(s, s');
      } else if t: nat :| t < |s.threads| && ThreadStep(s, s', t) {
        StepKeepsInv(s, s', t);
      } else {
        DeleteKeepsInv(s, s');
      }
    }
  }

  /**
   * No interleaving lets a call return a snapshot older than the file was at its first check, unless the file
   * was deleted meanwhile. Without writes in between, the snapshot is the file's present content.
   */
  lemma SnapshotsAreRecent(run: seq<State>, k: nat, t: nat)
    requires Run(run) && k < |run| && t < |run[k].threads| && run[k].threads[t].Returned?
    ensures var call := run[k].threads[t];
            call.result.Some? ==>
              && call.result.value.modified <= call.result.value.loaded <= run[k].clock
              && (call.first.Some? && !call.gone ==> call.first.value <= call.result.value.loaded)
              && (call.first == Some(run[k].clock) && !call.gone ==> call.result.value.loaded == run[k].clock)
  {
    InvAlways(run, k);
    assert CallOk(run[k], run[k].threads[t]);
  }

  function Last(run: seq<State>): State
    requires run != []
  {
    run[|run| - 1]
  }

  lemma RunOn(run: seq<State>, s: State)
    requires Run(run) && Next(Last(run), s)
    ensures Run(run + [s]) && Last(run + [s]) == s
  {
    var more := run + [s];
    forall i | 0 <= i < |more| - 1
      ensures Next(more[i], more[i + 1])
    {
      assert i < |run| - 1 ==> Next(run[i], run[i + 1]);
    }
  }

  /** The only thread acts. */
  lemma ThenActs(run: seq<State>, pc: Thread, cache: Option<FileSnapshot>) returns (run': seq<State>)
    requires Run(run) && |Last(run).threads| == 1 && Acts(Last(run), Last(run).threads[0], pc, cache)
    ensures Run(run') && Last(run') == Last(run).(threads := [pc], cache := cache)
  {
    var s' := Last(run).(threads := [pc], cache := cache);
    assert ThreadStep(Last(run), s', 0);
    RunOn(run, s');
    run' := run + [s'];
  }

  lemma ThenWritten(run: seq<State>, time: nat) returns (run': seq<State>)
    requires Run(run) && time > Last(run).clock
    ensures Run(run') && Last(run') == Last(run).(file := Some(time), clock := time)
  {
    var s' := Last(run).(file := Some(time), clock := time);
    RunOn(run, s');
    run' := run + [s'];
  }

  lemma ThenDeleted(run: seq<State>) returns (run': seq<State>)
    requires Run(run) && |Last(run).threads| == 1
    ensures Run(run') && Last(run') == Last(run).(file := None, threads := [Last(run).threads[0].Deleted()])
  {
    var s := Last(run);
    var s' := s.(file := None, threads := [s.threads[0].Deleted()]);
    assert s'.threads == seq(|s.threads|, t requires 0 <= t < |s.threads| => s.threads[t].Deleted());
    RunOn(run, s');
    run' := run + [s'];
  }

  /** A run in which the file is loaded at time 1. */
  lemma Loaded() returns (run: seq<State>)
    ensures Run(run) && Last(run) == State(Some(1), 1, Some(FileSnapshot(1, 1)), [Idle])
  {
    run := [State(Some(1), 1, None, [Idle])];
    run := ThenActs(run, Refreshing, None);
    run := ThenActs(run, Timed(1), None);
    run := ThenActs(run, Refreshed(1, Some(1)), None);
    run := ThenActs(run, Idle, Some(FileSnapshot(1, 1)));
  }

  /** Once the file has been written again, a call finds that it has to reload it. */
  lemma Outdated() returns (run: seq<State>)
    ensures Run(run) && Last(run) == State(Some(2), 2, Some(FileSnapshot(1, 1)), [Writing(Reload, Some(2), false)])
  {
    var stale := Some(FileSnapshot(1, 1));
    run := Loaded();
    run := ThenWritten(run, 2);
    run := ThenActs(run, Reading, stale);
    run := ThenActs(run, Checked(Some(2), false), stale);
    run := ThenActs(run, Waiting(Reload, Some(2), false), stale);
    run := ThenActs(run, Writing(Reload, Some(2), false), stale);
  }

  /** The file being deleted between the two checks is a way to get a stale snapshot, so the exception is needed. */
  lemma DeletionLeavesStale() returns (run: seq<State>)
    ensures Run(run)
    ensures var call := run[|run| - 1].threads;
            && |call| == 1 && call[0].Returned? && call[0].gone && call[0].first.Some? && call[0].result.Some?
            && call[0].result.value.loaded < call[0].first.value
  {
    run := Outdated();
    run := ThenDeleted(run);
    run := ThenActs(run, Returned(Some(2), Some(FileSnapshot(1, 1)), true), Some(FileSnapshot(1, 1)));
  }

  // -------------------------------------------------------------------------------------------------
  // A call that no write and no other thread comes between.
  // -------------------------------------------------------------------------------------------------

  predicate Ended(pc: Thread) { pc.Idle? || pc.Returned? }
  predicate Refreshes(pc: Thread) { pc.Refreshing? || pc.Timed? || pc.Refreshed? || pc.Idle? }

  /** Thread `t` acts, and if that is to read the file it succeeds. */
  ghost predicate Succeeds(s: State, s': State, t: nat) {
    && t < |s.threads| && ThreadStep(s, s', t)
    && (s.threads[t].Opening? || s.threads[t].Timed? || (s.threads[t].Refreshing? && s.file.Some?) ==>
          s'.threads[t] != Idle)
  }

  /** The rest of a call of thread `t`, to its end. */
  ghost predicate Alone(run: seq<State>, t: nat) {
    && run != [] && t < |Last(run).threads| && Ended(Last(run).threads[t])
    && forall i :: 0 <= i < |run| - 1 ==> Succeeds(run[i], run[i + 1], t) && !Ended(run[i].threads[t])
  }

  /** The snapshot has the present content of the file, and there is none of a missing file. */
  predicate Present(s: State, snapshot: Option<FileSnapshot>) {
    snapshot.Some? == s.file.Some? && (snapshot.Some? ==> snapshot.value.loaded == s.clock)
  }

  /** What a call that nothing comes between knows. */
  predicate Undisturbed(s: State, pc: Thread) {
    && HonestSnapshot(s, s.cache) && (s.file.Some? ==> s.file.value == s.clock)
    && match pc
       case Idle => s.cache == Stored(s.clock, s.file)
       case Reading => true
       case Checked(first, _) => first == s.file
       case Waiting(plan, first, _) => first == s.file && Planned(s, plan)
       case Writing(plan, first, _) => first == s.file && Planned(s, plan)
       case Opening(_, second, _) => s.file == Some(second)
       case Opened(_, second, content, _) => s.file == Some(second) && content == s.file
       case Returned(_, result, _) => result == s.cache && Present(s, s.cache)
       case Refreshing => true
       case Timed(second) => s.file == Some(second)
       case Refreshed(second, content) => s.file == Some(second) && content == s.file
  }

  predicate Planned(s: State, plan: Plan) {
    && (plan == Clear <==> s.file.None?)
    && (s.file.Some? ==> (plan == Reload <==> s.cache.Some?))
  }

  lemma StaysUndisturbed(s: State, s': State, t: nat)
    requires Succeeds(s, s', t) && !Ended(s.threads[t]) && Undisturbed(s, s.threads[t])
    ensures Undisturbed(s', s'.threads[t]) && Refreshes(s'.threads[t]) == Refreshes(s.threads[t])
  {}

  lemma {:induction false} EndsUndisturbed(run: seq<State>, t: nat)
    requires Alone(run, t) && t < |run[0].threads| && Undisturbed(run[0], run[0].threads[t])
    ensures Last(run).file == run[0].file && Last(run).clock == run[0].clock
    ensures Undisturbed(Last(run), Last(run).threads[t])
    ensures Refreshes(Last(run).threads[t]) == Refreshes(run[0].threads[t])
  {
    if |run| > 1 {
      assert Succeeds(run[0], run[0 + 1], t);
      StaysUndisturbed(run[0], run[1], t);
      var rest := run[1..];
      forall i | 0 <= i < |rest| - 1
        ensures Succeeds(rest[i], rest[i + 1], t) && !Ended(rest[i].threads[t])
      {
        assert Succeeds(run[i + 1], run[i + 1 + 1], t);
      }
      EndsUndisturbed(rest, t);
    }
  }

  /**
   * From every state that can be reached, a call of `recent_snapshot` that nothing comes between returns the present
   * content of the file, or nothing if there is no file, and leaves that in the cache.
   */
  lemma AloneIsPresent(run: seq<State>, call: seq<State>, t: nat)
    requires Run(run) && Alone(call, t) && call[0] == Last(run)
    requires t < |call[0].threads| && call[0].threads[t] == Reading
    ensures var s, pc := Last(call), Last(call).threads[t];
            && s.file == call[0].file && s.clock == call[0].clock
            && pc.Returned? && pc.result == s.cache && Present(s, pc.result)
  {
    InvAlways(run, |run| - 1);
    EndsUndisturbed(call, t);
  }

  /** Likewise `force_refresh` stores the present content, with the present modification time. */
  lemma RefreshIsPresent(run: seq<State>, call: seq<State>, t: nat)
    requires Run(run) && Alone(call, t) && call[0] == Last(run)
    requires t < |call[0].threads| && call[0].threads[t] == Refreshing
    ensures var s := Last(call);
            && s.file == call[0].file && s.clock == call[0].clock && s.threads[t] == Idle
            && s.cache == if s.file.Some? then Some(FileSnapshot(s.clock, s.clock)) else None
  {
    InvAlways(run, |run| - 1);
    EndsUndisturbed(call, t);
  }

  /** Nobody but `t` holds the lock. */
  predicate Free(s: State, t: nat) {
    forall u :: 0 <= u < |s.threads| && u != t ==> !s.threads[u].Reads() && !s.threads[u].Writes()
  }

  /** How many steps a call can have left. */
  function Left(pc: Thread): nat {
    match pc
    case Reading => 6
    case Checked(_, _) => 5
    case Waiting(_, _, _) => 4
    case Writing(_, _, _) => 3
    case Opening(_, _, _) => 2
    case Opened(_, _, _, _) => 1
    case Refreshing => 3
    case Timed(_) => 2
    case Refreshed(_, _) => 1
    case Idle => 0
    case Returned(_, _, _) => 0
  }

  lemma GoesOn(s: State, t: nat) returns (s': State)
    requires t < |s.threads| && Free(s, t) && !Ended(s.threads[t])
    ensures Succeeds(s, s', t) && Free(s', t) && Left(s'.threads[t]) < Left(s.threads[t])
  {
    var pc, cache := s.threads[t], s.cache;
    match s.threads[t] {
      case Reading => pc := Checked(s.file, false);
      case Checked(first, gone) => pc := Decided(s.cache, first, gone);
      case Waiting(plan, first, gone) => pc := Writing(plan, first, gone);
      case Writing(plan, first, gone) =>
        if plan == Clear {
          cache, pc := None, Returned(first, None, gone);
        } else if s.file.Some? && s.cache.Some? == (plan == Reload) {
          pc := Opening(first, s.file.value, gone);
        } else {
          pc := Returned(first, s.cache, gone);
        }
      case Opening(first, second, gone) => pc := Opened(first, second, s.file, gone);
      case Opened(first, second, content, gone) =>
        cache := Stored(second, content);
        pc := Returned(first, cache, gone);
      case Refreshing =>
        if s.file.Some? { pc := Timed(s.file.value); } else { cache, pc := None, Idle; }
      case Timed(second) => pc := Refreshed(second, s.file);
      case Refreshed(second, content) => cache, pc := Stored(second, content), Idle;
    }
    s' := s.(threads := s.threads[t := pc], cache := cache);
  }

  /** While nobody else holds the lock, a call that has begun can end, in six steps at most. */
  lemma {:induction false} CanEnd(s: State, t: nat) returns (call: seq<State>)
    requires t < |s.threads| && Free(s, t)
    ensures Alone(call, t) && call[0] == s && |call| <= Left(s.threads[t]) + 1
    decreases Left(s.threads[t])
  {
    call := [s];
    if !Ended(s.threads[t]) {
      var s' := GoesOn(s, t);
      var rest := CanEnd(s', t);
      call := [s] + rest;
      forall i | 0 <= i < |call| - 1
        ensures Succeeds(call[i], call[i + 1], t) && !Ended(call[i].threads[t])
      {
        if i > 0 { assert Succeeds(rest[i - 1], rest[i - 1 + 1], t); }
      }
    }
  }
}
