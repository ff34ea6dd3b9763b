/**
 * `gix-error/src/error.rs` with `exn/impls.rs`: an error tree is flattened breadth first into a chain whose
 * links only know the index of their parent. Iterating over the chain must still visit the logical tree
 * breadth first, although errors may themselves be boundaries around trees with chains of their own.
 */
module ErrorChain {
  import opened Wrappers

  /**
   * An error with its causes: the native source first, then the explicitly raised children. An error that is
   * itself a boundary carries the tree it encloses.
   */
  datatype Tree = Tree(id: nat, inner: Option<Tree>, kids: seq<Tree>)

  ghost function Size(t: Tree): (n: nat)
    ensures n >= 1
  {
    1 + (if t.inner.Some? then Size(t.inner.value) else 0) + Sizes(t.kids)
  }

  ghost function Sizes(ts: seq<Tree>): nat {
    if ts == [] then 0 else Size(ts[0]) + Sizes(ts[1..])
  }

  lemma {:induction false} SizesConcat(a: seq<Tree>, b: seq<Tree>)
    ensures Sizes(a + b) == Sizes(a) + Sizes(b)
  {
    if a == [] {
      assert a + b == b;
    } else {
      SizesConcat(a[1..], b);
      assert (a + b)[1..] == a[1..] + b;
    }
  }

  // -------------------------------------------------------------------------------------------------
  // The logical order.
  // -------------------------------------------------------------------------------------------------

  /** What an error leads to: first the tree it is a boundary of, then its own causes. */
  function Causes(t: Tree): seq<Tree> {
    (if t.inner.Some? then [t.inner.value] else []) + t.kids
  }

  lemma CausesShrink(q: seq<Tree>)
    requires q != []
    ensures Sizes(q[1..] + Causes(q[0])) < Sizes(q)
  {
    var t := q[0];
    SizesConcat(q[1..], Causes(t));
    if t.inner.Some? {
      SizesConcat([t.inner.value], t.kids);
      assert Sizes([t.inner.value]) == Size(t.inner.value) + Sizes([]) by { assert [t.inner.value][1..] == []; }
    } else {
      assert Causes(t) == t.kids;
    }
  }

  /** Breadth-first order from a queue. */
  ghost function Visit(q: seq<Tree>): seq<nat>
    decreases Sizes(q)
  {
    if q == [] then [] else
      CausesShrink(q);
      [q[0].id] + Visit(q[1..] + Causes(q[0]))
  }

  lemma VisitFirst(q: seq<Tree>, q': seq<Tree>, t: Tree)
    requires q != [] && q[0] == t && q' == q[1..] + Causes(t)
    ensures Visit(q) == [t.id] + Visit(q')
  {}

  /** How often an error occurs in a tree, boundaries included. */
  ghost function Times(x: nat, t: Tree): nat {
    (if t.id == x then 1 else 0) + (if t.inner.Some? then Times(x, t.inner.value) else 0) + TimesIn(x, t.kids)
  }

  ghost function TimesIn(x: nat, ts: seq<Tree>): nat {
    if ts == [] then 0 else Times(x, ts[0]) + TimesIn(x, ts[1..])
  }

  lemma {:induction false} TimesConcat(x: nat, a: seq<Tree>, b: seq<Tree>)
    ensures TimesIn(x, a + b) == TimesIn(x, a) + TimesIn(x, b)
  {
    if a == [] {
      assert a + b == b;
    } else {
      TimesConcat(x, a[1..], b);
      assert (a + b)[1..] == a[1..] + b;
    }
  }

  lemma TimesCauses(x: nat, t: Tree)
    ensures Times(x, t) == (if t.id == x then 1 else 0) + TimesIn(x, Causes(t))
  {
    if t.inner.Some? {
      TimesConcat(x, [t.inner.value], t.kids);
      assert TimesIn(x, [t.inner.value]) == Times(x, t.inner.value) by { assert [t.inner.value][1..] == []; }
    } else {
      assert Causes(t) == t.kids;
    }
  }

  /** Every error is visited as often as it occurs: each exactly once. */
  lemma {:induction false} VisitIsComplete(q: seq<Tree>, x: nat)
    ensures multiset(Visit(q))[x] == TimesIn(x, q)
    decreases Sizes(q)
  {
    if q != [] {
      var t, rest := q[0], q[1..] + Causes(q[0]);
      CausesShrink(q);
      VisitIsComplete(rest, x);
      TimesConcat(x, q[1..], Causes(t));
      TimesCauses(x, t);
      assert Visit(q) == [t.id] + Visit(rest);
    }
  }

  // -------------------------------------------------------------------------------------------------
  // Flattening.
  // -------------------------------------------------------------------------------------------------

  /** A node on its way into the chain, with the chain index of its parent, -1 for the root. */
  datatype Node = Node(tree: Tree, parent: int)

  function Nodes(kids: seq<Tree>, parent: int): (r: seq<Node>)
    ensures |r| == |kids| && forall k :: 0 <= k < |r| ==> r[k] == Node(kids[k], parent)
  {
    seq(|kids|, k requires 0 <= k < |kids| => Node(kids[k], parent))
  }

  ghost function Trees(q: seq<Node>): (r: seq<Tree>)
    ensures |r| == |q| && forall k :: 0 <= k < |r| ==> r[k] == q[k].tree
  {
    seq(|q|, k requires 0 <= k < |q| => q[k].tree)
  }

  lemma KidsShrink(q: seq<Node>, parent: int)
    requires q != []
    ensures Sizes(Trees(q[1..] + Nodes(q[0].tree.kids, parent))) < Sizes(Trees(q))
  {
    var kids := q[0].tree.kids;
    assert Trees(q[1..] + Nodes(kids, parent)) == Trees(q)[1..] + kids;
    SizesConcat(Trees(q)[1..], kids);
  }

  /** The nodes still to be numbered when `index` nodes have been: `flatten_error_nodes`. */
  function Flat(q: seq<Node>, index: nat): seq<Node>
    decreases Sizes(Trees(q))
  {
    if q == [] then [] else
      KidsShrink(q, index);
      [q[0]] + Flat(q[1..] + Nodes(q[0].tree.kids, index), index + 1)
  }

  method FlattenNodes(root: Tree) returns (out: seq<Node>)
    ensures out == Flat([Node(root, -1)], 0)
  {
    var queue := [Node(root, -1)];
    out := [];
    while queue != []
      invariant out + Flat(queue, |out|) == Flat([Node(root, -1)], 0)
      decreases Sizes(Trees(queue))
    {
      var node := queue[0];
      KidsShrink(queue, |out|);
      ghost var rest := Flat(queue[1..] + Nodes(node.tree.kids, |out|), |out| + 1);
      assert out + Flat(queue, |out|) == (out + [node]) + rest;
      queue := queue[1..] + Nodes(node.tree.kids, |out|);
      out := out + [node];
    }
  }

  /** Where the kids of the `k`-th node start in the chain, if `base` nodes are in front of all kids. */
  ghost function Start(f: seq<Node>, base: nat, k: nat): (r: nat)
    requires k <= |f|
    ensures r >= base
  {
    if k == 0 then base else Start(f, base, k - 1) + |f[k - 1].tree.kids|
  }

  lemma {:induction false} StartMonotone(f: seq<Node>, base: nat, k: nat, k': nat)
    requires k <= k' <= |f|
    ensures Start(f, base, k) <= Start(f, base, k')
    decreases k'
  {
    if k < k' { StartMonotone(f, base, k, k' - 1); }
  }

  lemma {:induction false} StartShift(x: Node, f: seq<Node>, base: nat, base': nat, k: nat)
    requires k <= |f| && base' + 1 == base + |x.tree.kids|
    ensures Start([x] + f, base, k + 1) == Start(f, base', k) + 1
  {
    if k > 0 {
      StartShift(x, f, base, base', k - 1);
      assert ([x] + f)[k] == f[k - 1];
    }
  }

  /** The kids of the `k`-th node stand together behind it, in order, and name `d + k` as their parent. */
  ghost predicate KidsAt(f: seq<Node>, base: nat, d: nat, k: nat)
    requires k < |f|
  {
    var s := Start(f, base, k);
    && k < s && s + |f[k].tree.kids| <= |f|
    && forall x :: s <= x < s + |f[k].tree.kids| ==> f[x] == Node(f[k].tree.kids[x - s], d + k)
  }

  lemma {:induction false} FlatLayout(q: seq<Node>, d: nat)
    ensures var f := Flat(q, d);
            q <= f && Start(f, |q|, |f|) == |f| && forall k :: 0 <= k < |f| ==> KidsAt(f, |q|, d, k)
    decreases Sizes(Trees(q))
  {
    if q != [] {
      KidsShrink(q, d);
      var q' := q[1..] + Nodes(q[0].tree.kids, d);
      var f, f' := Flat(q, d), Flat(q', d + 1);
      FlatLayout(q', d + 1);
      assert f == [q[0]] + f';
      StartShift(q[0], f', |q|, |q'|, |f'|);
      FirstKidsAt(q, d, f');
      forall k | 0 < k < |f|
        ensures KidsAt(f, |q|, d, k)
      {
        NextKidsAt(q, d, f', k);
      }
    }
  }

  lemma FirstKidsAt(q: seq<Node>, d: nat, f': seq<Node>)
    requires q != [] && q[1..] + Nodes(q[0].tree.kids, d) <= f'
    ensures q <= [q[0]] + f' && KidsAt([q[0]] + f', |q|, d, 0)
  {
    var q', f := q[1..] + Nodes(q[0].tree.kids, d), [q[0]] + f';
    forall y | 1 <= y < |q| + |q[0].tree.kids|
      ensures f[y] == if y < |q| then q[y] else Node(q[0].tree.kids[y - |q|], d)
    {
      assert f[y] == f'[y - 1] == q'[y - 1];
    }
  }

  lemma NextKidsAt(q: seq<Node>, d: nat, f': seq<Node>, k: nat)
    requires q != [] && 0 < k <= |f'| && KidsAt(f', |q| - 1 + |q[0].tree.kids|, d + 1, k - 1)
    ensures KidsAt([q[0]] + f', |q|, d, k)
  {
    var f, base' := [q[0]] + f', |q| - 1 + |q[0].tree.kids|;
    StartShift(q[0], f', |q|, base', k - 1);
    assert f[k] == f'[k - 1];
    forall y | Start(f, |q|, k) <= y < Start(f, |q|, k) + |f[k].tree.kids|
      ensures f[y] == Node(f[k].tree.kids[y - Start(f, |q|, k)], d + k)
    {
      assert f[y] == f'[y - 1];
    }
  }

  // -------------------------------------------------------------------------------------------------
  // The chain of a boundary.
  // -------------------------------------------------------------------------------------------------

  /** A link of the chain knows its error and the index of its parent, but not its children. */
  datatype Link = Link(id: nat, inner: Option<Tree>, parent: int)

  function LinkOf(n: Node): Link { Link(n.tree.id, n.tree.inner, n.parent) }

  function NodesOf(boundary: Tree): seq<Node> { Flat([Node(boundary, -1)], 0) }

  /** The chain an error boundary stores. */
  function Chain(boundary: Tree): (r: seq<Link>)
    ensures |r| == |NodesOf(boundary)| && forall k :: 0 <= k < |r| ==> r[k] == LinkOf(NodesOf(boundary)[k])
  {
    var f := NodesOf(boundary);
    seq(|f|, k requires 0 <= k < |f| => LinkOf(f[k]))
  }

  ghost function FirstKid(boundary: Tree, i: nat): nat
    requires i <= |NodesOf(boundary)|
  {
    Start(NodesOf(boundary), 1, i)
  }

  /** Parents never decrease along the chain: links in front of the first kid of `i` have earlier parents. */
  lemma ParentsInOrder(boundary: Tree, i: nat, x: nat)
    requires var f := NodesOf(boundary); i < |f| && 1 <= x < |f|
    ensures var f := NodesOf(boundary);
            && i < FirstKid(boundary, i) <= FirstKid(boundary, i + 1) <= |f|
            && (x < FirstKid(boundary, i) ==> 0 <= f[x].parent < i)
            && (x >= FirstKid(boundary, i + 1) ==> f[x].parent > i)
  {
    var f := NodesOf(boundary);
    FlatLayout([Node(boundary, -1)], 0);
    assert KidsAt(f, 1, 0, i);
    StartMonotone(f, 1, i + 1, |f|);
    var k := 0;
    while Start(f, 1, k + 1) <= x
      invariant k < |f| && Start(f, 1, k) <= x
      decreases |f| - k
    {
      k := k + 1;
    }
    assert KidsAt(f, 1, 0, k);
    assert f[x].parent == k;
    if x < Start(f, 1, i) && k >= i { StartMonotone(f, 1, i, k); }
    if x >= Start(f, 1, i + 1) && k <= i { StartMonotone(f, 1, k + 1, i + 1); }
  }

  // -------------------------------------------------------------------------------------------------
  // Iterating over chains.
  // -------------------------------------------------------------------------------------------------

  /**
   * A frame, which holds its causes, or a link of the chain of `boundary`, with the cursor its causes are streamed from
   * once there is one. A native source is a frame, too, with nothing but its own source or boundary behind it.
   */
  datatype Item = Frame(tree: Tree) | Item(boundary: Tree, index: nat, cursor: Option<nat>)

  function CursorOf(item: Item): Option<nat> { if item.Item? then item.cursor else None }

  function IndexOf(item: Item): nat { if item.Item? then item.index else 0 }

  datatype Cursor = Cursor(boundary: Tree, next: nat)

  predicate InChain(item: Item) { item.Item? && item.index < |NodesOf(item.boundary)| }

  predicate Known(item: Item) { item.Frame? || InChain(item) }

  function IdOf(item: Item): nat
    requires Known(item)
  {
    if item.Frame? then item.tree.id else Chain(item.boundary)[item.index].id
  }

  ghost function TreeAt(item: Item): Tree
    requires Known(item)
  {
    if item.Frame? then item.tree else NodesOf(item.boundary)[item.index].tree
  }

  ghost function TreesAt(items: seq<Item>): (r: seq<Tree>)
    requires forall k :: 0 <= k < |items| ==> Known(items[k])
    ensures |r| == |items| && forall k :: 0 <= k < |r| ==> r[k] == TreeAt(items[k])
  {
    seq(|items|, k requires 0 <= k < |items| => TreeAt(items[k]))
  }

  /** The cursor of an item, once it has one, is past the item but not past its children. */
  ghost predicate ItemOk(item: Item, chains: seq<Cursor>) {
    && Known(item)
    && (item.Item? && item.cursor.Some? ==>
          && item.cursor.value < |chains| && chains[item.cursor.value].boundary == item.boundary
          && item.index < chains[item.cursor.value].next <= FirstKid(item.boundary, item.index))
  }

  ghost predicate ItemsOk(items: seq<Item>, chains: seq<Cursor>) {
    && (forall k :: 0 <= k < |items| ==> ItemOk(items[k], chains))
    && (forall a, b ::
          0 <= a < b < |items| && CursorOf(items[a]).Some? && CursorOf(items[a]) == CursorOf(items[b]) ==>
            IndexOf(items[a]) < IndexOf(items[b]))
  }

  /** The children of an item, to be streamed from the cursor `c`. */
  ghost function KidItems(item: Item, c: nat): (r: seq<Item>)
    requires InChain(item) && FirstKid(item.boundary, item.index) <= FirstKid(item.boundary, item.index + 1)
    ensures |r| == FirstKid(item.boundary, item.index + 1) - FirstKid(item.boundary, item.index)
  {
    var s, e := FirstKid(item.boundary, item.index), FirstKid(item.boundary, item.index + 1);
    seq(e - s, k requires 0 <= k < e - s => Item(item.boundary, s + k, Some(c)))
  }

  /** Everything about the kids of an item in one place. */
  lemma KidsOfItem(item: Item)
    requires InChain(item)
    ensures var f := NodesOf(item.boundary);
            var s, e := FirstKid(item.boundary, item.index), FirstKid(item.boundary, item.index + 1);
            && item.index < s <= e <= |f| && e - s == |TreeAt(item).kids|
            && (forall x :: 1 <= x < s ==> f[x].parent < item.index)
            && (forall x :: s <= x < e ==> f[x] == Node(TreeAt(item).kids[x - s], item.index))
            && (forall x :: e <= x < |f| ==> f[x].parent > item.index)
  {
    var f, i := NodesOf(item.boundary), item.index;
    FlatLayout([Node(item.boundary, -1)], 0);
    assert KidsAt(f, 1, 0, i);
    forall x | 1 <= x < |f|
      ensures x < FirstKid(item.boundary, i) ==> f[x].parent < i
      ensures x >= FirstKid(item.boundary, i + 1) ==> f[x].parent > i
    {
      ParentsInOrder(item.boundary, i, x);
    }
  }

  /** Stream the children of `item` from a cursor that stands at `next`. */
  method Stream(item: Item, c: nat, next: nat) returns (items: seq<Item>, next': nat)
    requires InChain(item) && 1 <= next <= FirstKid(item.boundary, item.index)
    ensures next' == FirstKid(item.boundary, item.index + 1) && FirstKid(item.boundary, item.index) <= next'
    ensures items == KidItems(item, c)
  {
    KidsOfItem(item);
    var chain := Chain(item.boundary);
    ghost var s, e := FirstKid(item.boundary, item.index), FirstKid(item.boundary, item.index + 1);
    next' := next;
    while next' < |chain| && chain[next'].parent < item.index
      invariant 1 <= next' <= s
      decreases |chain| - next'
    {
      next' := next' + 1;
    }
    items := [];
    while next' < |chain| && chain[next'].parent == item.index
      invariant s <= next' <= e && items == KidItems(item, c)[..next' - s]
      decreases |chain| - next'
    {
      items := items + [Item(item.boundary, next', Some(c))];
      next' := next' + 1;
    }
  }

  /** The item comes before all others of its chain. */
  ghost predicate Ahead(item: Item, items: seq<Item>) {
    forall k :: 0 <= k < |items| && CursorOf(item).Some? && CursorOf(items[k]) == CursorOf(item) ==>
      IndexOf(item) < IndexOf(items[k])
  }

  /** The cursors after the children of `item` were streamed from cursor `c`. */
  function Advanced(chains: seq<Cursor>, item: Item, c: nat, next: nat): seq<Cursor>
    requires item.Item?
  {
    if c < |chains| then chains[c := Cursor(item.boundary, next)] else chains + [Cursor(item.boundary, next)]
  }

  /** Expanding an item leaves the others valid, with the cursor moved on to its last child. */
  lemma ExpandKeepsOthers(item: Item, pending: seq<Item>, chains: seq<Cursor>, c: nat)
    requires item.Item? && ItemOk(item, chains) && ItemsOk(pending, chains) && Ahead(item, pending)
    requires c == if item.cursor.Some? then item.cursor.value else |chains|
    ensures var chains' := Advanced(chains, item, c, FirstKid(item.boundary, item.index + 1));
            ItemsOk(pending, chains')
    ensures forall k :: 0 <= k < |pending| && CursorOf(pending[k]) == Some(c) ==>
              IndexOf(pending[k]) < FirstKid(item.boundary, item.index)
  {
    var f := NodesOf(item.boundary);
    KidsOfItem(item);
    forall k | 0 <= k < |pending| && CursorOf(pending[k]) == Some(c)
      ensures FirstKid(item.boundary, item.index + 1) <= FirstKid(item.boundary, pending[k].index)
    {
      StartMonotone(f, 1, item.index + 1, pending[k].index);
    }
  }

  lemma ExpandAddsKids(item: Item, chains: seq<Cursor>, c: nat)
    requires item.Item? && ItemOk(item, chains) && c == if item.cursor.Some? then item.cursor.value else |chains|
    requires FirstKid(item.boundary, item.index) <= FirstKid(item.boundary, item.index + 1)
    ensures ItemsOk(KidItems(item, c), Advanced(chains, item, c, FirstKid(item.boundary, item.index + 1)))
  {
    KidsOfItem(item);
    var s, kids := FirstKid(item.boundary, item.index), KidItems(item, c);
    var chains' := Advanced(chains, item, c, FirstKid(item.boundary, item.index + 1));
    forall k | 0 <= k < |kids|
      ensures ItemOk(kids[k], chains')
    {
      StartMonotone(NodesOf(item.boundary), 1, item.index + 1, s + k);
    }
  }

  /** Two groups of items, the second behind the first. */
  lemma ItemsConcat(a: seq<Item>, b: seq<Item>, chains: seq<Cursor>)
    requires ItemsOk(a, chains) && ItemsOk(b, chains)
    requires forall k, l ::
               0 <= k < |a| && 0 <= l < |b| && CursorOf(a[k]).Some? && CursorOf(a[k]) == CursorOf(b[l]) ==>
                 IndexOf(a[k]) < IndexOf(b[l])
    ensures ItemsOk(a + b, chains)
  {}

  /** The boundary an error encloses, as an item of its own. */
  function Enclosed(inner: Option<Tree>): seq<Item> {
    if inner.Some? then [Item(inner.value, 0, None)] else []
  }

  lemma EnclosedOk(inner: Option<Tree>, chains: seq<Cursor>)
    ensures ItemsOk(Enclosed(inner), chains)
    ensures inner.Some? ==> TreeAt(Enclosed(inner)[0]) == inner.value
  {
    if inner.Some? {
      FlatLayout([Node(inner.value, -1)], 0);
      assert [Node(inner.value, -1)] <= NodesOf(inner.value);
    }
  }

  lemma ExpandedTrees(item: Item, c: nat, chains: seq<Cursor>)
    requires InChain(item) && FirstKid(item.boundary, item.index) <= FirstKid(item.boundary, item.index + 1)
    requires ItemsOk(Enclosed(TreeAt(item).inner) + KidItems(item, c), chains)
    ensures TreesAt(Enclosed(TreeAt(item).inner) + KidItems(item, c)) == Causes(TreeAt(item))
  {
    KidsOfItem(item);
    EnclosedOk(TreeAt(item).inner, chains);
  }

  /** What expanding `item` appends: valid together with the items that were pending. */
  lemma Expansion(item: Item, pending: seq<Item>, chains: seq<Cursor>, c: nat)
    requires item.Item? && ItemOk(item, chains) && ItemsOk(pending, chains) && Ahead(item, pending)
    requires c == if item.cursor.Some? then item.cursor.value else |chains|
    ensures FirstKid(item.boundary, item.index) <= FirstKid(item.boundary, item.index + 1)
    ensures var more := Enclosed(TreeAt(item).inner) + KidItems(item, c);
            var chains' := Advanced(chains, item, c, FirstKid(item.boundary, item.index + 1));
            ItemsOk(more, chains') && ItemsOk(pending + more, chains') && TreesAt(more) == Causes(TreeAt(item))
  {
    KidsOfItem(item);
    var inner := TreeAt(item).inner;
    var chains' := Advanced(chains, item, c, FirstKid(item.boundary, item.index + 1));
    ExpandKeepsOthers(item, pending, chains, c);
    ExpandAddsKids(item, chains, c);
    EnclosedOk(inner, chains');
    ItemsConcat(Enclosed(inner), KidItems(item, c), chains');
    ItemsConcat(pending, Enclosed(inner) + KidItems(item, c), chains');
    ExpandedTrees(item, c, chains');
  }

  lemma FrontItem(items: seq<Item>, chains: seq<Cursor>)
    requires ItemsOk(items, chains) && items != []
    ensures ItemsOk(items[1..], chains) && Ahead(items[0], items[1..])
    ensures TreesAt(items) == [TreeAt(items[0])] + TreesAt(items[1..])
  {
    assert forall k :: 0 <= k < |items| - 1 ==> items[1..][k] == items[k + 1];
  }

  lemma TreesAtConcat(a: seq<Item>, b: seq<Item>)
    requires (forall k :: 0 <= k < |a| ==> Known(a[k])) && (forall k :: 0 <= k < |b| ==> Known(b[k]))
    ensures TreesAt(a + b) == TreesAt(a) + TreesAt(b)
  {}

  /** The last link of a chain has no kids, so it needs no cursor. */
  lemma WithoutKids(item: Item, pending: seq<Item>, chains: seq<Cursor>)
    requires InChain(item) && item.index + 1 == |NodesOf(item.boundary)| && ItemsOk(pending, chains)
    ensures var enclosed := Enclosed(TreeAt(item).inner);
            && ItemsOk(pending + enclosed, chains)
            && TreesAt(pending + enclosed) == TreesAt(pending) + Causes(TreeAt(item))
  {
    KidsOfItem(item);
    var inner := TreeAt(item).inner;
    EnclosedOk(inner, chains);
    ItemsConcat(pending, Enclosed(inner), chains);
    TreesAtConcat(pending, Enclosed(inner));
    assert TreeAt(item).kids == [];
  }

  /** What a frame leads to. */
  function FrameItems(tree: Tree): (r: seq<Item>)
    ensures |r| == |Enclosed(tree.inner)| + |tree.kids|
  {
    Enclosed(tree.inner) + seq(|tree.kids|, k requires 0 <= k < |tree.kids| => Frame(tree.kids[k]))
  }

  lemma FrameExpansion(tree: Tree, pending: seq<Item>, chains: seq<Cursor>)
    requires ItemsOk(pending, chains)
    ensures ItemsOk(FrameItems(tree), chains) && ItemsOk(pending + FrameItems(tree), chains)
    ensures TreesAt(pending + FrameItems(tree)) == TreesAt(pending) + Causes(tree)
  {
    EnclosedOk(tree.inner, chains);
    ItemsConcat(pending, FrameItems(tree), chains);
    assert TreesAt(FrameItems(tree)) == Causes(tree);
    TreesAtConcat(pending, FrameItems(tree));
  }

  /** The iterator behind `Error::iter_errors`. */
  class Errors {
    var root: Option<Item>
    var previous: Option<Item>
    var pending: seq<Item>
    var chains: seq<Cursor>

    constructor (error: Tree)
      ensures Valid() && Queue() == [error]
    {
      root, previous, pending, chains := Some(Item(error, 0, None)), None, [], [];
      FlatLayout([Node(error, -1)], 0);
      assert [Node(error, -1)] <= NodesOf(error);
    }

    /** The same for a tree of frames that is not flattened. */
    constructor OfFrame(tree: Tree)
      ensures Valid() && Queue() == [tree]
    {
      root, previous, pending, chains := Some(Frame(tree)), None, [], [];
    }

    ghost predicate Valid()
      reads this
    {
      && ItemsOk(pending, chains)
      && (root.Some? ==> previous.None? && pending == [] && ItemOk(root.value, chains))
      && (previous.Some? ==> ItemOk(previous.value, chains) && Ahead(previous.value, pending))
    }

    /** The logical breadth-first queue the state stands for. */
    ghost function Queue(): seq<Tree>
      requires Valid()
      reads this
    {
      if root.Some? then [TreeAt(root.value)]
      else TreesAt(pending) + (if previous.Some? then Causes(TreeAt(previous.value)) else [])
    }

    ghost function Remaining(): seq<nat>
      requires Valid()
      reads this
    {
      Visit(Queue())
    }

    /** `children`: append what an error leads to. */
    method Children(item: Item)
      requires ItemsOk(pending, chains) && ItemOk(item, chains) && Ahead(item, pending)
      modifies this`pending, this`chains
      ensures ItemsOk(pending, chains) && ItemsOk(old(pending), old(chains))
      ensures TreesAt(pending) == TreesAt(old(pending)) + Causes(TreeAt(item))
    {
      if item.Frame? {
        FrameExpansion(item.tree, pending, chains);
        pending := pending + FrameItems(item.tree);
      } else {
        ChainChildren(item);
      }
    }

    method ChainChildren(item: Item)
      requires item.Item? && ItemsOk(pending, chains) && ItemOk(item, chains) && Ahead(item, pending)
      modifies this`pending, this`chains
      ensures ItemsOk(pending, chains) && ItemsOk(old(pending), old(chains))
      ensures TreesAt(pending) == TreesAt(old(pending)) + Causes(TreeAt(item))
    {
      KidsOfItem(item);
      var chain := Chain(item.boundary);
      var enclosed := Enclosed(chain[item.index].inner);
      var c := if item.cursor.Some? then item.cursor.value else |chains|;
      Expansion(item, pending, chains, c);
      if item.cursor.None? && item.index + 1 == |chain| {
        WithoutKids(item, pending, chains);
        pending := pending + enclosed;
      } else {
        var items, next := Stream(item, c, if item.cursor.Some? then chains[c].next else item.index + 1);
        chains := Advanced(chains, item, c, next);
        TreesAtConcat(pending, enclosed + items);
        pending := pending + (enclosed + items);
      }
    }

    method ExpandPrevious()
      requires Valid()
      modifies this
      ensures Valid() && previous.None? && Queue() == old(Queue())
    {
      if previous.Some? {
        Children(previous.value);
        previous := None;
      }
    }

    method Next() returns (r: Option<Item>)
      requires Valid()
      modifies this
      ensures Valid()
      ensures if r.None? then old(Remaining()) == [] && Remaining() == []
              else Known(r.value) && old(Remaining()) == [IdOf(r.value)] + Remaining()
    {
      ExpandPrevious();
      ghost var q := Queue();
      r := Take();
      if r.Some? { VisitFirst(q, Queue(), TreeAt(r.value)); }
    }

    method TakeRoot() returns (r: Item)
      requires Valid() && root.Some?
      modifies this
      ensures Valid() && Known(r) && old(Queue()) == [TreeAt(r)] && Queue() == Causes(TreeAt(r))
    {
      r := root.value;
      root, previous := None, Some(r);
    }

    method TakePending() returns (r: Item)
      requires Valid() && root.None? && previous.None? && pending != []
      modifies this
      ensures Valid() && Known(r) && TreesAt(old(pending)) == [TreeAt(r)] + TreesAt(pending)
      ensures root.None? && previous == Some(r)
    {
      FrontItem(pending, chains);
      r := pending[0];
      pending, previous := pending[1..], Some(r);
    }

    /** The next error becomes the one to expand before the next is taken. */
    method Take() returns (r: Option<Item>)
      requires Valid() && previous.None?
      modifies this
      ensures Valid()
      ensures r.None? ==> old(Queue()) == [] && Queue() == []
      ensures r.Some? ==> Known(r.value) && old(Queue()) != [] && old(Queue())[0] == TreeAt(r.value)
      ensures r.Some? ==> Queue() == old(Queue())[1..] + Causes(TreeAt(r.value))
    {
      if root.None? && pending == [] { return None; }
      ghost var rest: seq<Tree>;
      var item;
      if root.Some? {
        item := TakeRoot();
        rest := [];
      } else {
        item := TakePending();
        rest := TreesAt(pending);
      }
      assert old(Queue()) == [TreeAt(item)] + rest && Queue() == rest + Causes(TreeAt(item));
      r := Some(item);
    }
  }

  /** Iterating over the chain of an error visits its logical tree breadth first. */
  method IterateAll(error: Tree) returns (ids: seq<nat>)
    ensures ids == Visit([error])
  {
    var errors := new Errors(error);
    ids := Drain(errors);
  }

  /** And so does iterating over frames, which may enclose flattened errors. */
  method IterateFrames(tree: Tree) returns (ids: seq<nat>)
    ensures ids == Visit([tree])
  {
    var errors := new Errors.OfFrame(tree);
    ids := Drain(errors);
  }

  lemma Taken(ids: seq<nat>, id: nat, rest: seq<nat>)
    ensures ids + ([id] + rest) == (ids + [id]) + rest
  {
  }

  method Drain(errors: Errors) returns (ids: seq<nat>)
    requires errors.Valid()
    modifies errors
    ensures ids == old(errors.Remaining())
  {
    ids := [];
    ghost var whole := errors.Remaining();
    ghost var rest := whole;
    while true
      invariant errors.Valid() && rest == errors.Remaining() && ids + rest == whole
      decreases |rest|
    {
      var next := errors.Next();
      if next.None? { return; }
      ghost var left := errors.Remaining();
      Taken(ids, IdOf(next.value), left);
      ids, rest := ids + [IdOf(next.value)], left;
    }
  }
}
