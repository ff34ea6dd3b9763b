/**
 * `gix-fsck/src/lib.rs`: the connectivity check walks commits, trees, blobs and tags from given roots through
 * an object database whose references may form any finite graph.
 */
module Fsck {
  type Oid = nat

  datatype Kind = Blob | Tree | Commit | Tag

  datatype EntryKind = TreeEntry | BlobEntry | SubmoduleEntry

  datatype Entry = Entry(kind: EntryKind, oid: Oid)

  /** What the database has under an id. */
  datatype Stored =
    | Unreadable
    | Garbled(garbledKind: Kind)
    | BlobData
    | TreeData(entries: seq<Entry>)
    | CommitData(tree: Oid, parents: seq<Oid>)
    | TagData(target: Oid, targetKind: Kind)

  datatype Ref = Ref(oid: Oid, kind: Kind)

  datatype Lookup = Failed | Absent | Found(data: Stored)

  datatype Odb = Odb(objects: map<Oid, Stored>, emptyTree: Oid, emptyBlob: Oid) {
    /** The ids of the empty tree and the empty blob name nothing else. */
    predicate Sane() {
      && emptyTree != emptyBlob
      && (emptyTree in objects ==> objects[emptyTree] == TreeData([]))
      && (emptyBlob in objects ==> objects[emptyBlob] == BlobData)
    }

    /** `find_optional_object` with default options. */
    function FindOptional(oid: Oid, expected: Kind): Lookup {
      if expected == Tree && oid == emptyTree then Found(TreeData([]))
      else if expected == Blob && oid == emptyBlob then Found(BlobData)
      else if oid !in objects then Absent
      else if objects[oid].Unreadable? || KindOf(objects[oid]) != expected then Failed
      else Found(objects[oid])
    }

    /** What an object refers to, each with the kind it must have; submodules are not references. */
    function Refs(oid: Oid): seq<Ref> {
      if oid !in objects then []
      else match objects[oid]
        case TreeData(entries) => TreeRefs(entries)
        case CommitData(tree, parents) => [Ref(tree, Tree)] + ParentRefs(parents)
        case TagData(target, kind) => [Ref(target, kind)]
        case _ => []
    }

    /** A reference to something absent, or to an object of the kind it must have. */
    predicate Sound(r: Ref) { !FindOptional(r.oid, r.kind).Failed? }

    /** A tree, commit or tag that cannot be decoded. */
    predicate Broken(oid: Oid) {
      oid in objects && objects[oid].Garbled? && objects[oid].garbledKind != Blob
    }

    /** Nothing is stored under the id, and it is not one of the two objects that need no storage. */
    predicate Missing(oid: Oid) { oid !in objects && oid != emptyTree && oid != emptyBlob }
  }

  function KindOf(s: Stored): Kind
    requires !s.Unreadable?
  {
    match s
    case Garbled(k) => k
    case BlobData => Blob
    case TreeData(_) => Tree
    case CommitData(_, _) => Commit
    case TagData(_, _) => Tag
  }

  function TreeRefs(entries: seq<Entry>): seq<Ref> {
    if entries == [] then []
    else TreeRefs(entries[..|entries| - 1]) + EntryRefs(entries[|entries| - 1])
  }

  function EntryRefs(e: Entry): seq<Ref> {
    match e.kind
    case TreeEntry => [Ref(e.oid, Tree)]
    case BlobEntry => [Ref(e.oid, Blob)]
    case SubmoduleEntry => []
  }

  function ParentRefs(parents: seq<Oid>): (r: seq<Ref>)
    ensures |r| == |parents| && forall k :: 0 <= k < |r| ==> r[k] == Ref(parents[k], Commit)
  {
    seq(|parents|, k requires 0 <= k < |parents| => Ref(parents[k], Commit))
  }

  // -------------------------------------------------------------------------------------------------
  // Reachability.
  // -------------------------------------------------------------------------------------------------

  ghost predicate PointsTo(db: Odb, x: Oid, y: Oid) {
    exists r :: r in db.Refs(x) && r.oid == y
  }

  ghost predicate Path(db: Odb, p: seq<Oid>) {
    |p| > 0 && forall k :: 0 <= k < |p| - 1 ==> PointsTo(db, p[k], p[k + 1])
  }

  ghost predicate Reach(db: Odb, x: Oid, y: Oid) {
    exists p :: Path(db, p) && p[0] == x && p[|p| - 1] == y
  }

  lemma ReachSelf(db: Odb, x: Oid)
    ensures Reach(db, x, x)
  {
    assert Path(db, [x]);
  }

  lemma ReachTransitive(db: Odb, x: Oid, y: Oid, z: Oid)
    requires Reach(db, x, y) && Reach(db, y, z)
    ensures Reach(db, x, z)
  {
    var p :| Path(db, p) && p[0] == x && p[|p| - 1] == y;
    var q :| Path(db, q) && q[0] == y && q[|q| - 1] == z;
    var pq := p + q[1..];
    forall k | 0 <= k < |pq| - 1
      ensures PointsTo(db, pq[k], pq[k + 1])
    {
      if k < |p| - 1 {
        assert PointsTo(db, p[k], p[k + 1]);
      } else {
        assert PointsTo(db, q[k - (|p| - 1)], q[k - (|p| - 1) + 1]);
      }
    }
    assert pq[|pq| - 1] == z;
  }

  lemma ReachNext(db: Odb, x: Oid, y: Oid, r: Ref)
    requires Reach(db, x, y) && r in db.Refs(y)
    ensures Reach(db, x, r.oid)
  {
    assert PointsTo(db, y, r.oid);
    assert Path(db, [y, r.oid]);
    ReachTransitive(db, x, y, r.oid);
  }

  /** What `x` refers to is in `seen` and is what it should be. */
  ghost predicate Expanded(db: Odb, seen: set<Oid>, x: Oid) {
    !db.Broken(x) && forall r :: r in db.Refs(x) ==> r.oid in seen && db.Sound(r)
  }

  /** `x` cannot be decoded, or refers to something unreadable or of the wrong kind. */
  ghost predicate Faulty(db: Odb, x: Oid) {
    db.Broken(x) || exists r :: r in db.Refs(x) && !db.Sound(r)
  }

  ghost predicate ReachesFault(db: Odb, x: Oid) {
    exists y :: Reach(db, x, y) && Faulty(db, y)
  }

  lemma FaultBehind(db: Odb, x: Oid, y: Oid)
    requires Reach(db, x, y) && ReachesFault(db, y)
    ensures ReachesFault(db, x)
  {
    var z :| Reach(db, y, z) && Faulty(db, z);
    ReachTransitive(db, x, y, z);
  }

  lemma {:induction false} ClosedContainsPath(db: Odb, seen: set<Oid>, p: seq<Oid>, k: nat)
    requires Path(db, p) && p[0] in seen && k < |p| && forall x :: x in seen ==> Expanded(db, seen, x)
    ensures p[k] in seen
  {
    if k > 0 {
      ClosedContainsPath(db, seen, p, k - 1);
      assert PointsTo(db, p[k - 1], p[k - 1 + 1]);
    }
  }

  /** A set closed under references contains everything its members reach. */
  lemma ClosedContainsReach(db: Odb, seen: set<Oid>, x: Oid, y: Oid)
    requires x in seen && Reach(db, x, y) && forall x :: x in seen ==> Expanded(db, seen, x)
    ensures y in seen
  {
    var p :| Path(db, p) && p[0] == x && p[|p| - 1] == y;
    ClosedContainsPath(db, seen, p, |p| - 1);
  }

  // -------------------------------------------------------------------------------------------------
  // The walk.
  // -------------------------------------------------------------------------------------------------

  ghost predicate Reported(missing: seq<Ref>, x: Oid) { exists k :: 0 <= k < |missing| && missing[k].oid == x }

  /** Everything new in `seen` is reachable from `root`; what it refers to is seen and sound, or a tree in `queue`. */
  ghost predicate Walked(db: Odb, seen0: set<Oid>, seen: set<Oid>, missing0: seq<Ref>, missing: seq<Ref>, root: Oid,
                         queue: seq<Oid>) {
    && seen0 <= seen && missing0 <= missing
    && (forall x :: x in seen && x !in seen0 ==> Reach(db, root, x) && Settled(db, seen, x, queue))
    && (forall x :: x in seen && x !in seen0 && db.Missing(x) ==> Reported(missing, x))
    && (forall q :: q in queue ==> q == root || Referred(db, root, Ref(q, Tree)))
  }

  /** Something the root reaches has the reference. */
  ghost predicate Referred(db: Odb, root: Oid, r: Ref) {
    exists x :: Reach(db, root, x) && r in db.Refs(x)
  }

  lemma ReferredReached(db: Odb, root: Oid, r: Ref)
    requires r.oid == root || Referred(db, root, r)
    ensures Reach(db, root, r.oid)
    ensures !db.Sound(r) ==> r.oid == root || ReachesFault(db, root)
  {
    if r.oid == root {
      ReachSelf(db, root);
    } else {
      var x :| Reach(db, root, x) && r in db.Refs(x);
      ReachNext(db, root, x, r);
      assert !db.Sound(r) ==> Faulty(db, x);
    }
  }

  ghost predicate Settled(db: Odb, seen: set<Oid>, x: Oid, queue: seq<Oid>) {
    && !db.Broken(x)
    && forall r :: r in db.Refs(x) ==> (r.kind == Tree && r.oid in queue) || (r.oid in seen && db.Sound(r))
  }

  /** A walk from something the root reaches goes on with the walk from the root. */
  lemma WalkedThen(db: Odb, seen0: set<Oid>, seen1: set<Oid>, seen2: set<Oid>,
                   missing0: seq<Ref>, missing1: seq<Ref>, missing2: seq<Ref>, root: Oid, next: Oid)
    requires Walked(db, seen0, seen1, missing0, missing1, root, [])
          && Walked(db, seen1, seen2, missing1, missing2, next, [])
    requires Reach(db, root, next)
    ensures Walked(db, seen0, seen2, missing0, missing2, root, [])
  {
    forall x | x in seen2 && x !in seen1
      ensures Reach(db, root, x)
    {
      ReachTransitive(db, root, next, x);
    }
    ReportedStays(missing1, missing2);
  }

  lemma ReportedStays(missing: seq<Ref>, missing': seq<Ref>)
    requires missing <= missing'
    ensures forall x :: Reported(missing, x) ==> Reported(missing', x)
  {
    forall x | Reported(missing, x)
      ensures Reported(missing', x)
    {
      var k :| 0 <= k < |missing| && missing[k].oid == x;
      assert missing'[k].oid == x;
    }
  }

  class Connectivity {
    const db: Odb
    var seen: set<Oid>
    /** What the callback for missing objects was told, in order. */
    var missing: seq<Ref>

    constructor (db: Odb)
      requires db.Sane()
      ensures this.db == db && seen == {} && missing == [] && Valid()
    {
      this.db, seen, missing := db, {}, [];
    }

    /** Each id is reported at most once, only when nothing is stored under it, and is seen from then on. */
    ghost predicate Valid()
      reads this
    {
      && db.Sane()
      && (forall i, j :: 0 <= i < j < |missing| ==> missing[i].oid != missing[j].oid)
      && (forall i :: 0 <= i < |missing| ==> missing[i].oid in seen && missing[i].oid !in db.objects)
    }

    method InsertSeen(oid: Oid) returns (inserted: bool)
      requires Valid()
      modifies this`seen
      ensures Valid() && seen == old(seen) + {oid} && inserted == (oid !in old(seen))
    {
      inserted := oid !in seen;
      seen := seen + {oid};
    }

    /** An id that was just seen for the first time turns out to be missing. */
    method Report(oid: Oid, kind: Kind)
      requires Valid() && oid in seen && oid !in db.objects && !Reported(missing, oid)
      modifies this`missing
      ensures Valid() && missing == old(missing) + [Ref(oid, kind)] && Reported(missing, oid)
    {
      missing := missing + [Ref(oid, kind)];
      assert missing[|missing| - 1].oid == oid;
    }

    /** A blob reference, followed for the first time or again. */
    method CheckBlob(oid: Oid) returns (ok: bool)
      requires Valid()
      modifies this
      ensures Valid() && old(seen) <= seen && old(missing) <= missing
      ensures ok == db.Sound(Ref(oid, Blob))
      ensures seen == old(seen) + {oid}
      ensures ok && oid !in old(seen) ==>
                db.Refs(oid) == [] && !db.Broken(oid) && (db.Missing(oid) ==> Reported(missing, oid))
    {
      var inserted := InsertSeen(oid);
      var found := db.FindOptional(oid, Blob);
      if inserted && found.Absent? { Report(oid, Blob); }
      ok := !found.Failed?;
    }

    /** `check_tree`: blobs are checked right away, subtrees are returned for later. */
    method CheckTree(oid: Oid) returns (ok: bool, trees: seq<Oid>)
      requires Valid() && oid in seen && !Reported(missing, oid)
      modifies this
      ensures Valid() && old(seen) <= seen && old(missing) <= missing
      ensures ok ==> db.Sound(Ref(oid, Tree)) && (db.Missing(oid) ==> Reported(missing, oid))
      ensures ok ==> Settled(db, seen, oid, trees) && forall q :: q in trees ==> Ref(q, Tree) in db.Refs(oid)
      ensures ok ==> NewBlobs(old(seen), db.Refs(oid))
      ensures !ok ==> !db.Sound(Ref(oid, Tree)) || Faulty(db, oid)
    {
      trees := [];
      var found := db.FindOptional(oid, Tree);
      if found.Failed? { return false, []; }
      if found.Absent? {
        Report(oid, Tree);
        return true, [];
      }
      if found.data.Garbled? { return false, []; }
      ok, trees := CheckEntries(found.data.entries);
    }

    method CheckEntries(entries: seq<Entry>) returns (ok: bool, trees: seq<Oid>)
      requires Valid()
      modifies this
      ensures Valid() && old(seen) <= seen && old(missing) <= missing
      ensures ok ==> TreeSettled(entries, trees) && NewBlobs(old(seen), TreeRefs(entries))
      ensures !ok ==> exists r :: r in TreeRefs(entries) && !db.Sound(r)
    {
      trees := [];
      for i := 0 to |entries|
        invariant Valid() && old(seen) <= seen && old(missing) <= missing
        invariant TreeSettled(entries[..i], trees) && NewBlobs(old(seen), TreeRefs(entries[..i]))
      {
        var e := entries[i];
        LastEntryRefs(entries, i);
        match e.kind
        case TreeEntry =>
          trees := trees + [e.oid];
        case BlobEntry =>
          ghost var missing' := missing;
          var fine := CheckBlob(e.oid);
          if !fine {
            RefsGrow(entries, i + 1, Ref(e.oid, Blob));
            return false, [];
          }
          ReportedStays(missing', missing);
        case SubmoduleEntry =>
      }
      assert entries[..|entries|] == entries;
      ok := true;
    }

    /** Every reference of the entries is seen and sound, or among `trees`, which has nothing else. */
    ghost predicate TreeSettled(entries: seq<Entry>, trees: seq<Oid>)
      reads this
    {
      && (forall r :: r in TreeRefs(entries) ==> (r.kind == Tree && r.oid in trees) || (r.oid in seen && db.Sound(r)))
      && (forall q :: q in trees ==> Ref(q, Tree) in TreeRefs(entries))
    }

    /** What is seen beyond `before` are blobs among the references, reported if missing. */
    ghost predicate NewBlobs(before: set<Oid>, refs: seq<Ref>)
      reads this
    {
      forall x :: x in seen && x !in before ==>
        Ref(x, Blob) in refs && db.Refs(x) == [] && !db.Broken(x) && (db.Missing(x) ==> Reported(missing, x))
    }

    /** `check_tree_id_at`: trees are walked breadth first from `oid`. */
    method CheckTreeId(oid: Oid) returns (ok: bool)
      requires Valid()
      modifies this
      ensures Valid() && old(seen) <= seen
      ensures ok ==> oid in seen && db.Sound(Ref(oid, Tree))
      ensures ok ==> Walked(db, old(seen), seen, old(missing), missing, oid, [])
      ensures !ok ==> !db.Sound(Ref(oid, Tree)) || ReachesFault(db, oid)
    {
      var queue := [oid];
      while queue != []
        invariant Valid() && old(seen) <= seen
        invariant Walked(db, old(seen), seen, old(missing), missing, oid, queue)
        invariant oid in queue || (oid in seen && db.Sound(Ref(oid, Tree)))
        decreases db.objects.Keys - seen, |queue|
      {
        var tree := queue[0];
        ghost var seen', missing', queue' := seen, missing, queue;
        queue := queue[1..];
        ReferredReached(db, oid, Ref(tree, Tree));
        var inserted := InsertSeen(tree);
        if inserted {
          var fine, trees := CheckTree(tree);
          if !fine { return false; }
          queue := queue + trees;
          assert tree !in db.objects ==> trees == [] by { assert trees != [] ==> trees[0] in trees; }
          TreeWalked(db, old(seen), seen', seen, old(missing), missing', missing, oid, tree, queue', trees);
        } else {
          if db.FindOptional(tree, Tree).Failed? { return false; }
        }
      }
      ok := true;
    }

    /** `check_commit_at` */
    method CheckCommitAt(oid: Oid) returns (ok: bool)
      requires Valid()
      modifies this
      ensures Valid() && old(seen) <= seen
      ensures ok ==> oid in seen && db.FindOptional(oid, Commit).Found?
      ensures ok ==> Walked(db, old(seen), seen, old(missing), missing, oid, [])
      ensures !ok ==> !db.FindOptional(oid, Commit).Found? || ReachesFault(db, oid)
      decreases db.objects.Keys - seen, 0
    {
      var inserted := InsertSeen(oid);
      var found := db.FindOptional(oid, Commit);
      if !inserted || !found.Found? { return found.Found?; }
      ReachSelf(db, oid);
      if found.data.Garbled? {
        assert Faulty(db, oid);
        return false;
      }
      var tree, parents := found.data.tree, found.data.parents;
      assert db.Refs(oid) == [Ref(tree, Tree)] + ParentRefs(parents);
      assert Ref(tree, Tree) in db.Refs(oid);
      ghost var seen1, missing1 := seen, missing;
      ReachNext(db, oid, oid, Ref(tree, Tree));
      ok := CheckTreeId(tree);
      if !ok {
        FaultAtRef(db, oid, Ref(tree, Tree));
        return;
      }
      WalkedThen(db, seen1, seen1, seen, missing1, missing1, missing, oid, tree);
      ghost var seen2, missing2 := seen, missing;
      ParentsReached(db, oid, tree, parents);
      ok := CheckParents(oid, parents);
      if !ok {
        FaultAtParent(db, oid, tree, parents);
        return;
      }
      WalkedThen(db, seen1, seen2, seen, missing1, missing2, missing, oid, oid);
      RootWalked(db, old(seen), seen, old(missing), missing, oid);
    }

    method CheckParents(ghost oid: Oid, parents: seq<Oid>) returns (ok: bool)
      requires Valid() && forall k :: 0 <= k < |parents| ==> Reach(db, oid, parents[k])
      modifies this
      ensures Valid() && old(seen) <= seen
      ensures ok ==> Walked(db, old(seen), seen, old(missing), missing, oid, [])
      ensures ok ==> forall k :: 0 <= k < |parents| ==> parents[k] in seen && db.Sound(Ref(parents[k], Commit))
      ensures !ok ==>
                exists k :: 0 <= k < |parents| && (!db.Sound(Ref(parents[k], Commit)) || ReachesFault(db, parents[k]))
      decreases db.objects.Keys - seen, 2
    {
      for i := 0 to |parents|
        invariant Valid() && Walked(db, old(seen), seen, old(missing), missing, oid, [])
        invariant forall k :: 0 <= k < i ==> parents[k] in seen && db.Sound(Ref(parents[k], Commit))
      {
        ghost var seen2, missing2 := seen, missing;
        ok := CheckReferenced(parents[i], Commit);
        if !ok { return; }
        WalkedThen(db, old(seen), seen2, seen, old(missing), missing2, missing, oid, parents[i]);
      }
      ok := true;
    }

    /** `check_tag_at` */
    method CheckTagAt(oid: Oid) returns (ok: bool)
      requires Valid()
      modifies this
      ensures Valid() && old(seen) <= seen
      ensures ok ==> oid in seen && db.FindOptional(oid, Tag).Found?
      ensures ok ==> Walked(db, old(seen), seen, old(missing), missing, oid, [])
      ensures !ok ==> !db.FindOptional(oid, Tag).Found? || ReachesFault(db, oid)
      decreases db.objects.Keys - seen, 0
    {
      var inserted := InsertSeen(oid);
      var found := db.FindOptional(oid, Tag);
      if !inserted || !found.Found? { return found.Found?; }
      ReachSelf(db, oid);
      if found.data.Garbled? {
        assert Faulty(db, oid);
        return false;
      }
      var r := Ref(found.data.target, found.data.targetKind);
      assert db.Refs(oid) == [r];
      ghost var seen1, missing1 := seen, missing;
      ReachNext(db, oid, oid, r);
      ok := CheckReferenced(r.oid, r.kind);
      if !ok {
        FaultAtRef(db, oid, r);
        return;
      }
      WalkedThen(db, seen1, seen1, seen, missing1, missing1, missing, oid, r.oid);
      RootWalked(db, old(seen), seen, old(missing), missing, oid);
    }

    /** `check_referenced_object_at`: follow a reference to an object that must be of the given kind. */
    method CheckReferenced(oid: Oid, kind: Kind) returns (ok: bool)
      requires Valid()
      modifies this
      ensures Valid() && old(seen) <= seen
      ensures ok ==> oid in seen && db.Sound(Ref(oid, kind))
      ensures ok ==> Walked(db, old(seen), seen, old(missing), missing, oid, [])
      ensures !ok ==> !db.Sound(Ref(oid, kind)) || ReachesFault(db, oid)
      decreases db.objects.Keys - seen, 1
    {
      ReachSelf(db, oid);
      match kind
      case Blob =>
        ok := CheckBlob(oid);
      case Tree =>
        ok := CheckTreeId(oid);
      case Commit =>
        if oid in db.objects {
          ok := CheckCommitAt(oid);
        } else {
          CheckMissing(oid, Commit);
          ok := true;
        }
      case Tag =>
        if oid in db.objects {
          ok := CheckTagAt(oid);
        } else {
          CheckMissing(oid, Tag);
          ok := true;
        }
    }

    /** A commit or tag that is not there is reported when it is met for the first time. */
    method CheckMissing(oid: Oid, kind: Kind)
      requires Valid() && oid !in db.objects
      modifies this
      ensures Valid() && seen == old(seen) + {oid} && Walked(db, old(seen), seen, old(missing), missing, oid, [])
    {
      ReachSelf(db, oid);
      var inserted := InsertSeen(oid);
      if inserted { Report(oid, kind); }
    }

    /** A sequence of `check_commit` and `check_tag` calls on a fresh checker, given up at the first error. */
    method CheckRoots(roots: seq<Ref>) returns (ok: bool)
      requires Valid() && seen == {} && missing == []
      requires forall k :: 0 <= k < |roots| ==> roots[k].kind == Commit || roots[k].kind == Tag
      modifies this
      ensures Valid()
      ensures ok ==> (forall x :: x in seen <==> FromRoots(db, roots, x))
      ensures ok ==> (forall x :: x in seen ==> Expanded(db, seen, x))
      ensures ok ==> (forall x :: x in seen && db.Missing(x) ==> Reported(missing, x))
      ensures ok <==> forall k :: 0 <= k < |roots| ==>
                        db.FindOptional(roots[k].oid, roots[k].kind).Found? && !ReachesFault(db, roots[k].oid)
    {
      for i := 0 to |roots|
        invariant Valid() && RootsWalked(db, roots, i, seen, missing)
      {
        ghost var seen', missing' := seen, missing;
        if roots[i].kind == Commit {
          ok := CheckCommitAt(roots[i].oid);
        } else {
          ok := CheckTagAt(roots[i].oid);
        }
        if !ok { return; }
        RootsWalkedThen(db, roots, i, seen', seen, missing', missing);
      }
      RootsReached(db, roots, seen, missing);
      ok := true;
    }

    /** `unreachable`: the ids that no check has reached, in the order given. */
    method Unreachable(ids: seq<Oid>) returns (r: seq<Oid>)
      ensures r == NotIn(ids, seen)
    {
      r := [];
      for i := 0 to |ids|
        invariant r == NotIn(ids[..i], seen)
      {
        assert ids[..i + 1][..i] == ids[..i];
        if ids[i] !in seen { r := r + [ids[i]]; }
      }
      assert ids[..|ids|] == ids;
    }
  }

  function NotIn(ids: seq<Oid>, s: set<Oid>): seq<Oid> {
    if ids == [] then []
    else
      var n := |ids| - 1;
      NotIn(ids[..n], s) + (if ids[n] in s then [] else [ids[n]])
  }

  ghost predicate FromRoots(db: Odb, roots: seq<Ref>, x: Oid) {
    exists k :: 0 <= k < |roots| && Reach(db, roots[k].oid, x)
  }

  /** A fault at or behind a reference is a fault behind the object that has it. */
  lemma FaultAtRef(db: Odb, x: Oid, r: Ref)
    requires r in db.Refs(x) && (!db.Sound(r) || ReachesFault(db, r.oid))
    ensures ReachesFault(db, x)
  {
    ReachSelf(db, x);
    if !db.Sound(r) {
      assert Faulty(db, x);
    } else {
      ReachNext(db, x, x, r);
      FaultBehind(db, x, r.oid);
    }
  }

  lemma FaultAtParent(db: Odb, oid: Oid, tree: Oid, parents: seq<Oid>)
    requires db.Refs(oid) == [Ref(tree, Tree)] + ParentRefs(parents)
    requires exists k :: 0 <= k < |parents| && (!db.Sound(Ref(parents[k], Commit)) || ReachesFault(db, parents[k]))
    ensures ReachesFault(db, oid)
  {
    var k :| 0 <= k < |parents| && (!db.Sound(Ref(parents[k], Commit)) || ReachesFault(db, parents[k]));
    assert db.Refs(oid)[k + 1] == Ref(parents[k], Commit);
    FaultAtRef(db, oid, Ref(parents[k], Commit));
  }

  lemma ParentsReached(db: Odb, oid: Oid, tree: Oid, parents: seq<Oid>)
    requires db.Refs(oid) == [Ref(tree, Tree)] + ParentRefs(parents)
    ensures forall k :: 0 <= k < |parents| ==> Reach(db, oid, parents[k])
  {
    forall k | 0 <= k < |parents|
      ensures Reach(db, oid, parents[k])
    {
      assert db.Refs(oid)[k + 1] == Ref(parents[k], Commit);
      ReachSelf(db, oid);
      ReachNext(db, oid, oid, Ref(parents[k], Commit));
    }
  }

  /** The first `n` roots were walked completely. */
  ghost predicate RootsWalked(db: Odb, roots: seq<Ref>, n: nat, seen: set<Oid>, missing: seq<Ref>) {
    && n <= |roots|
    && (forall k :: 0 <= k < n ==> roots[k].oid in seen && db.FindOptional(roots[k].oid, roots[k].kind).Found?)
    && (forall x :: x in seen ==> Expanded(db, seen, x) && FromRoots(db, roots, x))
    && (forall x :: x in seen && db.Missing(x) ==> Reported(missing, x))
  }

  lemma RootsWalkedThen(db: Odb, roots: seq<Ref>, n: nat, seen: set<Oid>, seen': set<Oid>, missing: seq<Ref>,
                        missing': seq<Ref>)
    requires RootsWalked(db, roots, n, seen, missing) && n < |roots|
    requires Walked(db, seen, seen', missing, missing', roots[n].oid, [])
    requires roots[n].oid in seen' && db.FindOptional(roots[n].oid, roots[n].kind).Found?
    ensures RootsWalked(db, roots, n + 1, seen', missing')
  {
    forall x | x in seen'
      ensures Expanded(db, seen', x) && FromRoots(db, roots, x)
    {
      if x in seen {
        assert Expanded(db, seen, x);
      } else {
        assert Settled(db, seen', x, []) && Reach(db, roots[n].oid, x);
      }
    }
    ReportedStays(missing, missing');
  }

  lemma RootsReached(db: Odb, roots: seq<Ref>, seen: set<Oid>, missing: seq<Ref>)
    requires RootsWalked(db, roots, |roots|, seen, missing)
    ensures forall x :: x in seen <==> FromRoots(db, roots, x)
    ensures forall k :: 0 <= k < |roots| ==> !ReachesFault(db, roots[k].oid)
  {
    forall x | FromRoots(db, roots, x)
      ensures x in seen
    {
      var k :| 0 <= k < |roots| && Reach(db, roots[k].oid, x);
      ClosedContainsReach(db, seen, roots[k].oid, x);
    }
    forall k | 0 <= k < |roots|
      ensures !ReachesFault(db, roots[k].oid)
    {
      forall y | Reach(db, roots[k].oid, y)
        ensures !Faulty(db, y)
      {
        assert FromRoots(db, roots, y) && Expanded(db, seen, y);
      }
    }
  }

  /** The object the walk started from, once all it refers to is settled. */
  lemma RootWalked(db: Odb, seen0: set<Oid>, seen: set<Oid>, missing0: seq<Ref>, missing: seq<Ref>, root: Oid)
    requires Walked(db, seen0 + {root}, seen, missing0, missing, root, []) && Settled(db, seen, root, [])
          && !db.Missing(root)
    ensures Walked(db, seen0, seen, missing0, missing, root, [])
  {
    ReachSelf(db, root);
  }

  lemma LastEntryRefs(entries: seq<Entry>, i: nat)
    requires i < |entries|
    ensures forall r :: r in TreeRefs(entries[..i + 1]) <==> r in TreeRefs(entries[..i]) || r in EntryRefs(entries[i])
  {
    assert entries[..i + 1][..i] == entries[..i];
  }

  lemma {:induction false} RefsGrow(entries: seq<Entry>, i: nat, r: Ref)
    requires i <= |entries| && r in TreeRefs(entries[..i])
    ensures r in TreeRefs(entries)
    decreases |entries| - i
  {
    if i < |entries| {
      LastEntryRefs(entries, i);
      RefsGrow(entries, i + 1, r);
    } else {
      assert entries[..i] == entries;
    }
  }

  /** Walking one more tree of the queue. */
  lemma TreeWalked(db: Odb, seen0: set<Oid>, seen1: set<Oid>, seen2: set<Oid>,
                   missing0: seq<Ref>, missing1: seq<Ref>, missing2: seq<Ref>,
                   root: Oid, tree: Oid, queue: seq<Oid>, trees: seq<Oid>)
    requires Walked(db, seen0, seen1, missing0, missing1, root, queue) && queue != [] && tree == queue[0]
          && tree !in seen1
    requires seen1 + {tree} <= seen2 && missing1 <= missing2
    requires db.Sound(Ref(tree, Tree)) && (db.Missing(tree) ==> Reported(missing2, tree))
    requires Settled(db, seen2, tree, trees) && forall q :: q in trees ==> Ref(q, Tree) in db.Refs(tree)
    requires forall x :: x in seen2 && x !in seen1 + {tree} ==>
               && Ref(x, Blob) in db.Refs(tree) && db.Refs(x) == [] && !db.Broken(x)
               && (db.Missing(x) ==> Reported(missing2, x))
    ensures Walked(db, seen0, seen2, missing0, missing2, root, queue[1..] + trees)
  {
    var queue' := queue[1..] + trees;
    ReferredReached(db, root, Ref(tree, Tree));
    assert forall q :: q in queue ==> q == tree || q in queue[1..];
    forall x | x in seen2 && x !in seen0
      ensures Reach(db, root, x) && Settled(db, seen2, x, queue')
    {
      if x !in seen1 && x != tree { ReachNext(db, root, tree, Ref(x, Blob)); }
    }
    ReportedStays(missing1, missing2);
  }
}
