/** The device tree: nodes linked to their parent, their first child and their next sibling. */
module DeviceTree {
  import opened Basics

  class Device {
    const kind: nat

    constructor (k: nat)
      ensures kind == k
    {
      kind := k;
    }
  }

  class Node {
    var parent: Node?
    var slide: Node?
    var child: Node?
    const data: Device

    constructor (d: Device)
      ensures parent == null && slide == null && child == null && data == d
    {
      parent, slide, child, data := null, null, null, d;
    }
  }

  // ----- trees as values -----

  datatype Tree = Tree(node: Node, kids: seq<Tree>)

  ghost function Preorder(t: Tree): seq<Node>
    decreases t, 1
  {
    [t.node] + PreorderAll(t.kids)
  }

  ghost function PreorderAll(ts: seq<Tree>): seq<Node>
    decreases ts, 0
  {
    if ts == [] then [] else Preorder(ts[0]) + PreorderAll(ts[1..])
  }

  ghost predicate Distinct(s: seq<Node>) {
    forall i, j :: 0 <= i < j < |s| ==> s[i] != s[j]
  }

  ghost function First(ts: seq<Tree>): Node? { if ts == [] then null else ts[0].node }

  // ----- the links of a set of nodes, at one moment -----

  datatype Cell = Cell(parent: Node?, slide: Node?, child: Node?)
  type Links = map<Node, Cell>

  ghost function Snapshot(ns: set<Node>): Links
    reads ns
  {
    map n | n in ns :: Cell(n.parent, n.slide, n.child)
  }

  /** The links below t.node are those of the tree t. */
  ghost predicate Rep(l: Links, t: Tree)
    decreases t, 1
  {
    t.node in l && l[t.node].child == First(t.kids) && Chain(l, t.kids, t.node)
  }

  /** The sibling chain that starts at the first of ts is ts, with parent p. */
  ghost predicate Chain(l: Links, ts: seq<Tree>, p: Node)
    decreases ts, 0
  {
    ts != [] ==>
      && Rep(l, ts[0])
      && l[ts[0].node].parent == p && l[ts[0].node].slide == First(ts[1..])
      && Chain(l, ts[1..], p)
  }

  lemma {:induction false} ChainAt(l: Links, ts: seq<Tree>, p: Node, i: nat)
    requires Chain(l, ts, p) && i < |ts|
    ensures Rep(l, ts[i]) && l[ts[i].node].parent == p && l[ts[i].node].slide == First(ts[i + 1..])
    ensures Chain(l, ts[i..], p)
  {
    if i > 0 {
      ChainAt(l, ts[1..], p, i - 1);
      assert ts[1..][i - 1] == ts[i] && ts[1..][i..] == ts[i + 1..] && ts[1..][i - 1..] == ts[i..];
    } else {
      assert ts[0..] == ts;
    }
  }

  /** Rep looks at the child of every node and at the other links of every node but the root. */
  lemma {:induction false} RepSame(l: Links, m: Links, t: Tree)
    requires Rep(l, t)
    requires forall n :: n in Preorder(t) ==> n in l && n in m && m[n].child == l[n].child
    requires forall n :: n in PreorderAll(t.kids) ==> m[n] == l[n]
    ensures Rep(m, t)
    decreases t, 1
  {
    assert t.node in Preorder(t);
    ChainSame(l, m, t.kids, t.node);
  }

  lemma {:induction false} ChainSame(l: Links, m: Links, ts: seq<Tree>, p: Node)
    requires Chain(l, ts, p)
    requires forall n :: n in PreorderAll(ts) ==> n in l && n in m && m[n] == l[n]
    ensures Chain(m, ts, p)
    decreases ts, 0
  {
    if ts != [] {
      assert ts[0].node in Preorder(ts[0]);
      RepSame(l, m, ts[0]);
      ChainSame(l, m, ts[1..], p);
    }
  }

  // ----- subtrees, insertion and removal on tree values -----

  lemma DistinctSplit(a: seq<Node>, b: seq<Node>)
    requires Distinct(a + b)
    ensures Distinct(a) && Distinct(b) && forall n :: n in a ==> n !in b
  {
    forall i, j | 0 <= i < j < |a| ensures a[i] != a[j] { assert (a + b)[i] == a[i] && (a + b)[j] == a[j]; }
    forall i, j | 0 <= i < j < |b| ensures b[i] != b[j] {
      assert (a + b)[|a| + i] == b[i] && (a + b)[|a| + j] == b[j];
    }
    forall n | n in a ensures n !in b {
      var i :| 0 <= i < |a| && a[i] == n;
      assert (a + b)[i] == n;
      forall j | 0 <= j < |b| ensures b[j] != n { assert (a + b)[|a| + j] == b[j]; }
    }
  }

  /** What Distinct says about the parts of a tree and of a forest. */
  lemma TreeParts(t: Tree)
    requires Distinct(Preorder(t))
    ensures Distinct(PreorderAll(t.kids)) && t.node !in PreorderAll(t.kids)
  {
    DistinctSplit([t.node], PreorderAll(t.kids));
    assert t.node in [t.node];
  }

  lemma ForestParts(ts: seq<Tree>)
    requires ts != [] && Distinct(PreorderAll(ts))
    ensures Distinct(Preorder(ts[0])) && Distinct(PreorderAll(ts[1..]))
    ensures forall n :: n in Preorder(ts[0]) ==> n !in PreorderAll(ts[1..])
    ensures forall n :: n in PreorderAll(ts) <==> n in Preorder(ts[0]) || n in PreorderAll(ts[1..])
  {
    DistinctSplit(Preorder(ts[0]), PreorderAll(ts[1..]));
  }

  /** The subtree at node p. */
  ghost function Sub(t: Tree, p: Node): (s: Tree)
    requires p in Preorder(t)
    ensures s.node == p
    decreases t, 1
  {
    if t.node == p then t else SubAll(t.kids, p)
  }

  ghost function SubAll(ts: seq<Tree>, p: Node): (s: Tree)
    requires p in PreorderAll(ts)
    ensures s.node == p
    decreases ts, 0
  {
    if p in Preorder(ts[0]) then Sub(ts[0], p) else SubAll(ts[1..], p)
  }

  /** x becomes the last child of p. */
  ghost function Grafted(t: Tree, p: Node, x: Node): Tree
    requires p in Preorder(t)
    decreases t, 1
  {
    if t.node == p then Tree(p, t.kids + [Tree(x, [])]) else Tree(t.node, GraftedAll(t.kids, p, x))
  }

  ghost function GraftedAll(ts: seq<Tree>, p: Node, x: Node): (r: seq<Tree>)
    requires p in PreorderAll(ts)
    ensures |r| == |ts|
    decreases ts, 0
  {
    if p in Preorder(ts[0]) then [Grafted(ts[0], p, x)] + ts[1..] else [ts[0]] + GraftedAll(ts[1..], p, x)
  }

  /** The subtree at x is gone. */
  ghost function Pruned(t: Tree, x: Node): Tree
    requires x in PreorderAll(t.kids)
    decreases t, 1
  {
    Tree(t.node, PrunedAll(t.kids, x))
  }

  ghost function PrunedAll(ts: seq<Tree>, x: Node): seq<Tree>
    requires x in PreorderAll(ts)
    decreases ts, 0
  {
    if ts[0].node == x then ts[1..]
    else if x in Preorder(ts[0]) then [Pruned(ts[0], x)] + ts[1..]
    else [ts[0]] + PrunedAll(ts[1..], x)
  }

  // ----- the pre-order sequence of the results -----

  lemma {:induction false} PreorderConcat(ts: seq<Tree>, us: seq<Tree>)
    ensures PreorderAll(ts + us) == PreorderAll(ts) + PreorderAll(us)
  {
    if ts == [] {
      assert ts + us == us;
    } else {
      assert (ts + us)[0] == ts[0] && (ts + us)[1..] == ts[1..] + us;
      PreorderConcat(ts[1..], us);
    }
  }

  /** What the pre-order sequence has before and after the subtree at p. */
  ghost function Before(t: Tree, p: Node): seq<Node>
    requires p in Preorder(t)
    decreases t, 1
  {
    if t.node == p then [] else [t.node] + BeforeAll(t.kids, p)
  }

  ghost function BeforeAll(ts: seq<Tree>, p: Node): seq<Node>
    requires p in PreorderAll(ts)
    decreases ts, 0
  {
    if p in Preorder(ts[0]) then Before(ts[0], p) else Preorder(ts[0]) + BeforeAll(ts[1..], p)
  }

  ghost function After(t: Tree, p: Node): seq<Node>
    requires p in Preorder(t)
    decreases t, 1
  {
    if t.node == p then [] else AfterAll(t.kids, p)
  }

  ghost function AfterAll(ts: seq<Tree>, p: Node): seq<Node>
    requires p in PreorderAll(ts)
    decreases ts, 0
  {
    if p in Preorder(ts[0]) then After(ts[0], p) + PreorderAll(ts[1..]) else AfterAll(ts[1..], p)
  }

  /** The subtree at p is one contiguous segment of the pre-order sequence. */
  lemma {:induction false} SubSegment(t: Tree, p: Node)
    requires p in Preorder(t)
    ensures Preorder(t) == Before(t, p) + Preorder(Sub(t, p)) + After(t, p)
    decreases t, 1
  {
    if t.node != p { SubSegmentAll(t.kids, p); }
  }

  lemma {:induction false} SubSegmentAll(ts: seq<Tree>, p: Node)
    requires p in PreorderAll(ts)
    ensures PreorderAll(ts) == BeforeAll(ts, p) + Preorder(SubAll(ts, p)) + AfterAll(ts, p)
    decreases ts, 0
  {
    if p in Preorder(ts[0]) {
      SubSegment(ts[0], p);
      Reassociate(Before(ts[0], p) + Preorder(Sub(ts[0], p)), After(ts[0], p), PreorderAll(ts[1..]));
    } else {
      SubSegmentAll(ts[1..], p);
      PrependedShort(Preorder(ts[0]), BeforeAll(ts[1..], p), Preorder(SubAll(ts[1..], p)), AfterAll(ts[1..], p));
    }
  }

  /** Insertion puts x right after that segment. */
  lemma {:induction false} InsertSegment(t: Tree, p: Node, x: Node)
    requires p in Preorder(t)
    ensures Preorder(Grafted(t, p, x)) == Before(t, p) + Preorder(Sub(t, p)) + [x] + After(t, p)
    decreases t, 1
  {
    if t.node == p {
      PreorderConcat(t.kids, [Tree(x, [])]);
      assert PreorderAll([Tree(x, [])]) == [x];
    } else {
      InsertSegmentAll(t.kids, p, x);
    }
  }

  lemma {:induction false} InsertSegmentAll(ts: seq<Tree>, p: Node, x: Node)
    requires p in PreorderAll(ts)
    ensures PreorderAll(GraftedAll(ts, p, x)) == BeforeAll(ts, p) + Preorder(SubAll(ts, p)) + [x] + AfterAll(ts, p)
    decreases ts, 0
  {
    if p in Preorder(ts[0]) {
      InsertSegment(ts[0], p, x);
      PreorderCons(Grafted(ts[0], p, x), ts[1..]);
      Reassociate(Before(ts[0], p) + Preorder(Sub(ts[0], p)) + [x], After(ts[0], p), PreorderAll(ts[1..]));
    } else {
      InsertSegmentAll(ts[1..], p, x);
      PreorderCons(ts[0], GraftedAll(ts[1..], p, x));
      Prepended(Preorder(ts[0]), BeforeAll(ts[1..], p), Preorder(SubAll(ts[1..], p)), [x], AfterAll(ts[1..], p));
    }
  }

  lemma PrependedShort(a: seq<Node>, b: seq<Node>, c: seq<Node>, d: seq<Node>)
    ensures a + (b + c + d) == a + b + c + d
  {}

  lemma Prepended(a: seq<Node>, b: seq<Node>, c: seq<Node>, d: seq<Node>, e: seq<Node>)
    ensures a + (b + c + d + e) == a + b + c + d + e
  {}

  /** Removal takes exactly that segment away. */
  lemma {:induction false} RemoveSegment(t: Tree, p: Node)
    requires p in PreorderAll(t.kids) && p != t.node
    ensures p in Preorder(t) && Preorder(Pruned(t, p)) == Before(t, p) + After(t, p)
    decreases t, 1
  {
    RemoveSegmentAll(t.kids, p);
  }

  lemma {:induction false} RemoveSegmentAll(ts: seq<Tree>, p: Node)
    requires p in PreorderAll(ts)
    ensures PreorderAll(PrunedAll(ts, p)) == BeforeAll(ts, p) + AfterAll(ts, p)
    decreases ts, 0
  {
    if ts[0].node == p {
      assert p in Preorder(ts[0]);
    } else if p in Preorder(ts[0]) {
      RemoveSegment(ts[0], p);
      PreorderCons(Pruned(ts[0], p), ts[1..]);
      Reassociate(Before(ts[0], p), After(ts[0], p), PreorderAll(ts[1..]));
    } else {
      RemoveSegmentAll(ts[1..], p);
      PreorderCons(ts[0], PrunedAll(ts[1..], p));
      Reassociate(Preorder(ts[0]), BeforeAll(ts[1..], p), AfterAll(ts[1..], p));
    }
  }

  lemma PreorderCons(t: Tree, ts: seq<Tree>)
    ensures PreorderAll([t] + ts) == Preorder(t) + PreorderAll(ts)
  {
    assert ([t] + ts)[1..] == ts;
  }

  lemma Reassociate(a: seq<Node>, b: seq<Node>, c: seq<Node>)
    ensures a + b + c == a + (b + c)
  {}

  /** The new node is the last child of its parent, and has no children. */
  lemma {:induction false} GraftedSub(t: Tree, p: Node, x: Node)
    requires p in Preorder(t) && Distinct(Preorder(t)) && x !in Preorder(t)
    ensures p in Preorder(Grafted(t, p, x)) && Sub(Grafted(t, p, x), p) == Tree(p, Sub(t, p).kids + [Tree(x, [])])
    decreases t, 1
  {
    if t.node != p {
      TreeParts(t);
      GraftedSubAll(t.kids, p, x);
    }
  }

  lemma {:induction false} GraftedSubAll(ts: seq<Tree>, p: Node, x: Node)
    requires p in PreorderAll(ts) && Distinct(PreorderAll(ts)) && x !in PreorderAll(ts)
    ensures p in PreorderAll(GraftedAll(ts, p, x))
    ensures SubAll(GraftedAll(ts, p, x), p) == Tree(p, SubAll(ts, p).kids + [Tree(x, [])])
    decreases ts, 0
  {
    ForestParts(ts);
    var r := GraftedAll(ts, p, x);
    if p in Preorder(ts[0]) {
      GraftedSub(ts[0], p, x);
      PreorderCons(Grafted(ts[0], p, x), ts[1..]);
      assert r[0] == Grafted(ts[0], p, x);
    } else {
      GraftedSubAll(ts[1..], p, x);
      PreorderCons(ts[0], GraftedAll(ts[1..], p, x));
      assert r[0] == ts[0] && r[1..] == GraftedAll(ts[1..], p, x);
    }
  }

  // ----- removal undoes insertion -----

  lemma {:induction false} GraftedThenPruned(t: Tree, p: Node, x: Node)
    requires p in Preorder(t) && x !in Preorder(t)
    ensures x in PreorderAll(Grafted(t, p, x).kids) && Pruned(Grafted(t, p, x), x) == t
    decreases t, 1
  {
    if t.node == p {
      LastPruned(t.kids, x);
    } else {
      GraftedAllThenPruned(t.kids, p, x);
    }
  }

  lemma {:induction false} GraftedAllThenPruned(ts: seq<Tree>, p: Node, x: Node)
    requires p in PreorderAll(ts) && x !in PreorderAll(ts)
    ensures x in PreorderAll(GraftedAll(ts, p, x)) && PrunedAll(GraftedAll(ts, p, x), x) == ts
    decreases ts, 0
  {
    assert ts[0].node in Preorder(ts[0]);
    if p in Preorder(ts[0]) {
      GraftedThenPruned(ts[0], p, x);
      PreorderCons(Grafted(ts[0], p, x), ts[1..]);
      assert GraftedAll(ts, p, x)[1..] == ts[1..];
    } else {
      GraftedAllThenPruned(ts[1..], p, x);
      PreorderCons(ts[0], GraftedAll(ts[1..], p, x));
      assert GraftedAll(ts, p, x)[1..] == GraftedAll(ts[1..], p, x);
    }
  }

  lemma {:induction false} LastPruned(ts: seq<Tree>, x: Node)
    requires x !in PreorderAll(ts)
    ensures x in PreorderAll(ts + [Tree(x, [])]) && PrunedAll(ts + [Tree(x, [])], x) == ts
  {
    PreorderConcat(ts, [Tree(x, [])]);
    assert PreorderAll([Tree(x, [])]) == [x];
    if ts != [] {
      assert ts[0].node in Preorder(ts[0]);
      LastPruned(ts[1..], x);
      assert (ts + [Tree(x, [])])[1..] == ts[1..] + [Tree(x, [])];
    }
  }

  // ----- what the link updates do -----

  lemma {:induction false} SubRep(l: Links, t: Tree, p: Node)
    requires Rep(l, t) && p in Preorder(t)
    ensures Rep(l, Sub(t, p))
    ensures forall n :: n in Preorder(Sub(t, p)) ==> n in Preorder(t)
    decreases t, 1
  {
    if t.node != p { SubRepAll(l, t.kids, t.node, p); }
  }

  lemma {:induction false} SubRepAll(l: Links, ts: seq<Tree>, q: Node, p: Node)
    requires Chain(l, ts, q) && p in PreorderAll(ts)
    ensures Rep(l, SubAll(ts, p))
    ensures forall n :: n in Preorder(SubAll(ts, p)) ==> n in PreorderAll(ts)
    decreases ts, 0
  {
    if p in Preorder(ts[0]) { SubRep(l, ts[0], p); } else { SubRepAll(l, ts[1..], q, p); }
  }

  /** The node whose link an insertion below p rewrites: p itself or its last child. */
  ghost function Hook(s: Tree): Node {
    if s.kids == [] then s.node else s.kids[|s.kids| - 1].node
  }

  lemma {:induction false} HookIn(s: Tree)
    ensures Hook(s) in Preorder(s) && (s.kids != [] ==> Hook(s) in PreorderAll(s.kids))
  {
    if s.kids != [] {
      var n := |s.kids| - 1;
      PreorderConcat(s.kids[..n], s.kids[n..]);
      assert s.kids == s.kids[..n] + s.kids[n..];
      assert s.kids[n..] == [s.kids[n]];
      assert s.kids[n].node in Preorder(s.kids[n]);
      assert PreorderAll([s.kids[n]]) == Preorder(s.kids[n]) + PreorderAll([]);
      assert s.kids[n].node in PreorderAll(s.kids[n..]);
    }
  }

  lemma {:induction false} ChainAppend(l: Links, m: Links, ts: seq<Tree>, p: Node, x: Node)
    requires Chain(l, ts, p) && ts != [] && Distinct(PreorderAll(ts)) && x !in PreorderAll(ts)
    requires x in m && m[x] == Cell(p, null, null)
    requires forall n :: n in PreorderAll(ts) ==>
               n in l && n in m && m[n] == if n == ts[|ts| - 1].node then l[n].(slide := x) else l[n]
    ensures Chain(m, ts + [Tree(x, [])], p)
  {
    var us := ts + [Tree(x, [])];
    ChainAppendHead(l, m, ts, p, x);
    if |ts| == 1 {
      assert us[1..] == [Tree(x, [])];
      LeafChain(m, x, p);
    } else {
      ForestParts(ts);
      hide Rep, Distinct, Preorder, PreorderAll;
      assert ts[|ts| - 1] == ts[1..][|ts[1..]| - 1];
      ChainAppend(l, m, ts[1..], p, x);
      assert us[1..] == ts[1..] + [Tree(x, [])];
    }
  }

  lemma LeafChain(m: Links, x: Node, p: Node)
    requires x in m && m[x] == Cell(p, null, null)
    ensures Chain(m, [Tree(x, [])], p)
  {
    var t := Tree(x, []);
    var ts := [t];
    assert ts[1..] == [] && Chain(m, ts[1..], p) && Chain(m, t.kids, x);
    assert Rep(m, t);
  }

  lemma ChainAppendHead(l: Links, m: Links, ts: seq<Tree>, p: Node, x: Node)
    requires Chain(l, ts, p) && ts != [] && Distinct(PreorderAll(ts)) && x !in PreorderAll(ts)
    requires forall n :: n in PreorderAll(ts) ==>
               n in l && n in m && m[n] == if n == ts[|ts| - 1].node then l[n].(slide := x) else l[n]
    ensures Rep(m, ts[0]) && m[ts[0].node].parent == p && m[ts[0].node].slide == if |ts| == 1 then x else First(ts[1..])
  {
    ForestParts(ts);
    TreeParts(ts[0]);
    assert ts[0].node in Preorder(ts[0]);
    if |ts| > 1 {
      LastIn(ts[1..]);
      assert ts[|ts| - 1] == ts[1..][|ts[1..]| - 1];
    }
    RepSame(l, m, ts[0]);
  }

  lemma LastIn(ts: seq<Tree>)
    requires ts != []
    ensures ts[|ts| - 1].node in PreorderAll(ts)
  {
    if |ts| > 1 {
      LastIn(ts[1..]);
    } else {
      assert ts[0].node in Preorder(ts[0]);
    }
  }

  lemma HookPlace(t: Tree, p: Node, l: Links)
    requires Rep(l, t) && p in Preorder(t) && Distinct(Preorder(t))
    ensures Hook(Sub(t, p)) in Preorder(t)
    ensures Hook(Sub(t, p)) == t.node ==> p == t.node && t.kids == []
  {
    var s := Sub(t, p);
    SubRep(l, t, p);
    HookIn(s);
    TreeParts(t);
    if t.node != p { SubRepAll(l, t.kids, t.node, p); }
  }

  /** m is l after the hook of s was linked to x, at node n. */
  ghost predicate HookedAt(l: Links, m: Links, s: Tree, x: Node, n: Node) {
    && n in l && n in m
    && m[n] == if n != Hook(s) then l[n] else if s.kids == [] then l[n].(child := x) else l[n].(slide := x)
  }

  /** generic_tree_insert, on the links: the tree becomes Grafted(t, p, x). */
  lemma {:induction false} RepInsert(l: Links, m: Links, t: Tree, p: Node, x: Node)
    requires Rep(l, t) && Distinct(Preorder(t)) && p in Preorder(t) && x !in Preorder(t)
    requires x in m && m[x] == Cell(p, null, null)
    requires forall n :: n in Preorder(t) ==> HookedAt(l, m, Sub(t, p), x, n)
    ensures Rep(m, Grafted(t, p, x))
    decreases t, 1
  {
    TreeParts(t);
    HookPlace(t, p, l);
    assert HookedAt(l, m, Sub(t, p), x, t.node);
    if t.node != p {
      RepInsertAll(l, m, t.kids, t.node, p, x);
    } else if t.kids == [] {
      assert Rep(m, Tree(x, [])) && Chain(m, [], p);
      assert Chain(m, [Tree(x, [])], p);
    } else {
      LastIn(t.kids);
      forall n | n in PreorderAll(t.kids)
        ensures n in l && n in m && m[n] == if n == t.kids[|t.kids| - 1].node then l[n].(slide := x) else l[n]
      {
        assert HookedAt(l, m, t, x, n);
      }
      ChainAppend(l, m, t.kids, p, x);
    }
  }

  lemma {:induction false} RepInsertAll(l: Links, m: Links, ts: seq<Tree>, q: Node, p: Node, x: Node)
    requires Chain(l, ts, q) && Distinct(PreorderAll(ts)) && p in PreorderAll(ts) && x !in PreorderAll(ts)
    requires x in m && m[x] == Cell(p, null, null)
    requires forall n :: n in PreorderAll(ts) ==> HookedAt(l, m, SubAll(ts, p), x, n)
    ensures Chain(m, GraftedAll(ts, p, x), q) && First(GraftedAll(ts, p, x)) == First(ts)
    decreases ts, 0
  {
    ForestParts(ts);
    var s := SubAll(ts, p);
    var r := GraftedAll(ts, p, x);
    assert ts[0].node in Preorder(ts[0]) && HookedAt(l, m, s, x, ts[0].node);
    if p in Preorder(ts[0]) {
      HookPlace(ts[0], p, l);
      RepInsert(l, m, ts[0], p, x);
      Unhooked(l, m, s, x, PreorderAll(ts[1..]));
      ChainSame(l, m, ts[1..], q);
      assert r[1..] == ts[1..];
    } else {
      SubRepAll(l, ts[1..], q, p);
      HookIn(s);
      TreeParts(ts[0]);
      Unhooked(l, m, s, x, Preorder(ts[0]));
      RepSame(l, m, ts[0]);
      RepInsertAll(l, m, ts[1..], q, p, x);
      assert r[1..] == GraftedAll(ts[1..], p, x);
    }
  }

  lemma Unhooked(l: Links, m: Links, s: Tree, x: Node, ns: seq<Node>)
    requires Hook(s) !in ns && forall n :: n in ns ==> HookedAt(l, m, s, x, n)
    ensures forall n :: n in ns ==> n in l && n in m && m[n] == l[n]
  {
    forall n | n in ns ensures n in l && n in m && m[n] == l[n] {
      assert HookedAt(l, m, s, x, n);
    }
  }

  // ----- removal -----

  ghost predicate HasRoot(ts: seq<Tree>, x: Node) {
    exists i :: 0 <= i < |ts| && ts[i].node == x
  }

  /** The subtree that x is a child of. */
  ghost function Host(t: Tree, x: Node): Tree
    requires x in PreorderAll(t.kids)
    decreases t, 1
  {
    if HasRoot(t.kids, x) then t else HostAll(t.kids, x)
  }

  ghost function HostAll(ts: seq<Tree>, x: Node): Tree
    requires x in PreorderAll(ts) && !HasRoot(ts, x)
    decreases ts, 0
  {
    assert ts[0].node != x;
    if x in Preorder(ts[0]) then Host(ts[0], x)
    else (assert forall i :: 0 <= i < |ts[1..]| ==> ts[1..][i] == ts[i + 1]; HostAll(ts[1..], x))
  }

  /** The node whose link a removal of child i of s rewrites. */
  ghost function Grip(s: Tree, i: nat): Node
    requires i < |s.kids|
  {
    if i == 0 then s.node else s.kids[i - 1].node
  }

  /** m is l after child i of s was unlinked, at node n. */
  ghost predicate ReleasedAt(l: Links, m: Links, s: Tree, i: nat, n: Node)
    requires i < |s.kids|
  {
    && n in l && n in m
    && m[n] ==
       if n == s.kids[i].node then Cell(null, null, l[n].child)
       else if n != Grip(s, i) then l[n]
       else if i == 0 then l[n].(child := First(s.kids[1..])) else l[n].(slide := First(s.kids[i + 1..]))
  }

  lemma {:induction false} RootIn(ts: seq<Tree>, i: nat)
    requires i < |ts|
    ensures ts[i].node in PreorderAll(ts)
  {
    assert ts[i].node in Preorder(ts[i]);
    if i > 0 {
      RootIn(ts[1..], i - 1);
      assert ts[1..][i - 1] == ts[i];
    }
  }

  lemma {:induction false} HostFacts(l: Links, t: Tree, x: Node)
    requires Rep(l, t) && x in PreorderAll(t.kids)
    ensures var s := Host(t, x);
            && Rep(l, s) && HasRoot(s.kids, x)
            && s.node in Preorder(t) && forall n :: n in PreorderAll(s.kids) ==> n in PreorderAll(t.kids)
    decreases t, 1
  {
    if !HasRoot(t.kids, x) { HostFactsAll(l, t.kids, t.node, x); }
  }

  lemma {:induction false} HostFactsAll(l: Links, ts: seq<Tree>, q: Node, x: Node)
    requires Chain(l, ts, q) && x in PreorderAll(ts) && !HasRoot(ts, x)
    ensures var s := HostAll(ts, x);
            && Rep(l, s) && HasRoot(s.kids, x)
            && s.node in PreorderAll(ts) && forall n :: n in PreorderAll(s.kids) ==> n in PreorderAll(ts)
    decreases ts, 0
  {
    assert ts[0].node != x;
    if x in Preorder(ts[0]) {
      HostFacts(l, ts[0], x);
    } else {
      assert forall i :: 0 <= i < |ts[1..]| ==> ts[1..][i] == ts[i + 1];
      HostFactsAll(l, ts[1..], q, x);
    }
  }

  /** m is l after tree i was taken out of the chain ts, at node n. */
  ghost predicate DroppedAt(l: Links, m: Links, ts: seq<Tree>, i: nat, n: Node)
    requires i < |ts|
  {
    && n in l && n in m
    && if n == ts[i].node then m[n].child == l[n].child
       else m[n] == if i > 0 && n == ts[i - 1].node then l[n].(slide := First(ts[i + 1..])) else l[n]
  }

  /** Taking tree i out of a sibling chain. */
  lemma {:induction false} ChainDrop(l: Links, m: Links, ts: seq<Tree>, i: nat, p: Node)
    requires Chain(l, ts, p) && i < |ts| && Distinct(PreorderAll(ts))
    requires forall n :: n in PreorderAll(ts) ==> DroppedAt(l, m, ts, i, n)
    ensures Chain(m, ts[..i] + ts[i + 1..], p) && Rep(m, ts[i])
    ensures First(ts[..i] + ts[i + 1..]) == if i == 0 then First(ts[1..]) else First(ts)
  {
    if i == 0 {
      ChainDropHead(l, m, ts, p);
      assert ts[..0] + ts[1..] == ts[1..];
    } else {
      ChainDropTail(l, m, ts, i, p);
      ForestParts(ts);
      hide Rep, Distinct, Preorder, PreorderAll, DroppedAt;
      ChainDrop(l, m, ts[1..], i - 1, p);
      var us := ts[..i] + ts[i + 1..];
      assert us[1..] == ts[1..][..i - 1] + ts[1..][i..];
      assert ts[1..][i..] == ts[i + 1..] && ts[1..][i - 1] == ts[i];
      assert us[0] == ts[0];
    }
  }

  lemma ChainDropHead(l: Links, m: Links, ts: seq<Tree>, p: Node)
    requires Chain(l, ts, p) && 0 < |ts| && Distinct(PreorderAll(ts))
    requires forall n :: n in PreorderAll(ts) ==> DroppedAt(l, m, ts, 0, n)
    ensures Chain(m, ts[1..], p) && Rep(m, ts[0])
  {
    ForestParts(ts);
    TreeParts(ts[0]);
    assert ts[0].node in Preorder(ts[0]);
    NotDropped(l, m, ts, 0, PreorderAll(ts[1..]));
    ChainSame(l, m, ts[1..], p);
    NotDropped(l, m, ts, 0, PreorderAll(ts[0].kids));
    assert DroppedAt(l, m, ts, 0, ts[0].node);
    RepSame(l, m, ts[0]);
  }

  lemma ChainDropTail(l: Links, m: Links, ts: seq<Tree>, i: nat, p: Node)
    requires Chain(l, ts, p) && 0 < i < |ts| && Distinct(PreorderAll(ts))
    requires forall n :: n in PreorderAll(ts) ==> DroppedAt(l, m, ts, i, n)
    ensures Rep(m, ts[0]) && m[ts[0].node].parent == p
    ensures m[ts[0].node].slide == if i == 1 then First(ts[2..]) else First(ts[1..])
    ensures forall n :: n in PreorderAll(ts[1..]) ==> DroppedAt(l, m, ts[1..], i - 1, n)
  {
    ForestParts(ts);
    TreeParts(ts[0]);
    var us := ts[1..];
    assert us[i - 1] == ts[i] && (i > 1 ==> us[i - 2] == ts[i - 1]) && us[i..] == ts[i + 1..];
    assert ts[0].node in Preorder(ts[0]) && DroppedAt(l, m, ts, i, ts[0].node);
    RootIn(us, i - 1);
    if i > 1 { RootIn(us, i - 2); }
    NotDropped(l, m, ts, i, PreorderAll(ts[0].kids));
    RepSame(l, m, ts[0]);
    forall n | n in PreorderAll(us) ensures DroppedAt(l, m, us, i - 1, n) {
      assert DroppedAt(l, m, ts, i, n);
    }
  }

  lemma NotDropped(l: Links, m: Links, ts: seq<Tree>, i: nat, ns: seq<Node>)
    requires i < |ts| && ts[i].node !in ns && (i > 0 ==> ts[i - 1].node !in ns)
    requires forall n :: n in ns ==> DroppedAt(l, m, ts, i, n)
    ensures forall n :: n in ns ==> n in l && n in m && m[n] == l[n]
  {
    forall n | n in ns ensures n in l && n in m && m[n] == l[n] {
      assert DroppedAt(l, m, ts, i, n);
    }
  }

  lemma {:induction false} RootRemoved(ts: seq<Tree>, i: nat)
    requires i < |ts| && Distinct(PreorderAll(ts))
    ensures ts[i].node in PreorderAll(ts)
    ensures PrunedAll(ts, ts[i].node) == ts[..i] + ts[i + 1..]
    ensures SubAll(ts, ts[i].node) == ts[i]
  {
    RootIn(ts, i);
    ForestParts(ts);
    assert ts[i].node in Preorder(ts[i]);
    if i > 0 {
      RootIn(ts[1..], i - 1);
      assert ts[1..][i - 1] == ts[i];
      assert ts[0].node in Preorder(ts[0]);
      RootRemoved(ts[1..], i - 1);
      assert ts[..i] + ts[i + 1..] == [ts[0]] + (ts[1..][..i - 1] + ts[1..][i..]);
    }
  }

  /** generic_tree_remove, on the links: the tree becomes Pruned(t, x), and the subtree at x stays
      a tree of its own. */
  lemma {:induction false} RepRemove(l: Links, m: Links, t: Tree, x: Node, i: nat)
    requires Rep(l, t) && Distinct(Preorder(t)) && x in PreorderAll(t.kids)
    requires i < |Host(t, x).kids| && Host(t, x).kids[i].node == x
    requires forall n :: n in Preorder(t) ==> ReleasedAt(l, m, Host(t, x), i, n)
    ensures Rep(m, Pruned(t, x)) && Rep(m, SubAll(t.kids, x))
    decreases t, 1
  {
    TreeParts(t);
    var s := Host(t, x);
    HostFacts(l, t, x);
    assert ReleasedAt(l, m, s, i, t.node);
    if HasRoot(t.kids, x) {
      forall n | n in PreorderAll(t.kids) ensures DroppedAt(l, m, t.kids, i, n) {
        assert ReleasedAt(l, m, s, i, n);
      }
      ChainDrop(l, m, t.kids, i, t.node);
      RootRemoved(t.kids, i);
    } else {
      HostFactsAll(l, t.kids, t.node, x);
      if i > 0 { RootIn(s.kids, i - 1); }
      RepRemoveAll(l, m, t.kids, t.node, x, i);
    }
  }

  lemma {:induction false} RepRemoveAll(l: Links, m: Links, ts: seq<Tree>, q: Node, x: Node, i: nat)
    requires Chain(l, ts, q) && Distinct(PreorderAll(ts)) && x in PreorderAll(ts) && !HasRoot(ts, x)
    requires i < |HostAll(ts, x).kids| && HostAll(ts, x).kids[i].node == x
    requires forall n :: n in PreorderAll(ts) ==> ReleasedAt(l, m, HostAll(ts, x), i, n)
    ensures Chain(m, PrunedAll(ts, x), q) && First(PrunedAll(ts, x)) == First(ts) && Rep(m, SubAll(ts, x))
    decreases ts, 0, 1
  {
    RepRemoveHead(l, m, ts, q, x, i);
    if x in Preorder(ts[0]) {
      RepRemoveIn(l, m, ts, q, x, i);
    } else {
      ForestParts(ts);
      assert !HasRoot(ts[1..], x) by {
        assert forall k :: 0 <= k < |ts[1..]| ==> ts[1..][k] == ts[k + 1];
      }
      hide Rep, Distinct, Preorder, PreorderAll, HasRoot, ReleasedAt;
      RepRemoveAll(l, m, ts[1..], q, x, i);
      assert PrunedAll(ts, x)[1..] == PrunedAll(ts[1..], x);
    }
  }

  /** The first tree of the chain keeps its place, and as a whole when x is not in it. */
  lemma RepRemoveHead(l: Links, m: Links, ts: seq<Tree>, q: Node, x: Node, i: nat)
    requires Chain(l, ts, q) && Distinct(PreorderAll(ts)) && x in PreorderAll(ts) && !HasRoot(ts, x)
    requires i < |HostAll(ts, x).kids| && HostAll(ts, x).kids[i].node == x
    requires forall n :: n in PreorderAll(ts) ==> ReleasedAt(l, m, HostAll(ts, x), i, n)
    ensures ts[0].node != x && ts[0].node in m && ts[0].node in l
    ensures m[ts[0].node].parent == l[ts[0].node].parent && m[ts[0].node].slide == l[ts[0].node].slide
    ensures x !in Preorder(ts[0]) ==> Rep(m, ts[0])
  {
    ForestParts(ts);
    var s := HostAll(ts, x);
    assert ts[0].node != x;
    assert ts[0].node in Preorder(ts[0]) && ReleasedAt(l, m, s, i, ts[0].node);
    if i > 0 { RootIn(s.kids, i - 1); }
    RootIn(s.kids, i);
    if x in Preorder(ts[0]) {
      TreeParts(ts[0]);
      HostFacts(l, ts[0], x);
    } else {
      assert !HasRoot(ts[1..], x) by {
        assert forall k :: 0 <= k < |ts[1..]| ==> ts[1..][k] == ts[k + 1];
      }
      HostFactsAll(l, ts[1..], q, x);
      hide Rep, Chain, Distinct, HasRoot, PreorderAll;
      NotGripped(l, m, s, i, Preorder(ts[0]));
      RootOut(l, m, ts[0]);
    }
  }

  lemma RootOut(l: Links, m: Links, t: Tree)
    requires Rep(l, t) && forall n :: n in Preorder(t) ==> n in l && n in m && m[n] == l[n]
    ensures Rep(m, t)
  {
    RepSame(l, m, t);
  }

  lemma {:induction false} RepRemoveIn(l: Links, m: Links, ts: seq<Tree>, q: Node, x: Node, i: nat)
    requires Chain(l, ts, q) && Distinct(PreorderAll(ts)) && x in PreorderAll(ts) && !HasRoot(ts, x)
    requires i < |HostAll(ts, x).kids| && HostAll(ts, x).kids[i].node == x
    requires forall n :: n in PreorderAll(ts) ==> ReleasedAt(l, m, HostAll(ts, x), i, n)
    requires x in Preorder(ts[0]) && ts[0].node != x && ts[0].node in m && ts[0].node in l
    requires m[ts[0].node].parent == l[ts[0].node].parent && m[ts[0].node].slide == l[ts[0].node].slide
    ensures Chain(m, PrunedAll(ts, x), q) && First(PrunedAll(ts, x)) == First(ts) && Rep(m, SubAll(ts, x))
    decreases ts, 0, 0
  {
    ForestParts(ts);
    var s := HostAll(ts, x);
    if i > 0 { RootIn(s.kids, i - 1); }
    RootIn(s.kids, i);
    HostFacts(l, ts[0], x);
    RepRemove(l, m, ts[0], x, i);
    NotGripped(l, m, s, i, PreorderAll(ts[1..]));
    ChainSame(l, m, ts[1..], q);
    assert PrunedAll(ts, x)[1..] == ts[1..];
  }

  lemma NotGripped(l: Links, m: Links, s: Tree, i: nat, ns: seq<Node>)
    requires i < |s.kids| && Grip(s, i) !in ns && s.kids[i].node !in ns
    requires forall n :: n in ns ==> ReleasedAt(l, m, s, i, n)
    ensures forall n :: n in ns ==> n in l && n in m && m[n] == l[n]
  {
    forall n | n in ns ensures n in l && n in m && m[n] == l[n] {
      assert ReleasedAt(l, m, s, i, n);
    }
  }

  // ----- searches over a sequence of nodes -----

  /** The two comparison functions of device.c. */
  function SameAs(d: Device): Device -> bool { e => e == d }

  function OfKind(kind: nat): Device -> bool { (e: Device) => e.kind == kind }

  ghost function FirstMatch(s: seq<Node>, pred: Device -> bool): Node? {
    if s == [] then null else if pred(s[0].data) then s[0] else FirstMatch(s[1..], pred)
  }

  ghost function Matches(s: seq<Node>, pred: Device -> bool): seq<Device> {
    if s == [] then [] else (if pred(s[0].data) then [s[0].data] else []) + Matches(s[1..], pred)
  }

  lemma {:induction false} SearchConcat(a: seq<Node>, b: seq<Node>, pred: Device -> bool)
    ensures FirstMatch(a + b, pred) == if FirstMatch(a, pred) != null then FirstMatch(a, pred) else FirstMatch(b, pred)
    ensures Matches(a + b, pred) == Matches(a, pred) + Matches(b, pred)
  {
    if a == [] {
      assert a + b == b;
    } else {
      assert (a + b)[0] == a[0] && (a + b)[1..] == a[1..] + b;
      SearchConcat(a[1..], b, pred);
      var h := if pred(a[0].data) then [a[0].data] else [];
      assert h + (Matches(a[1..], pred) + Matches(b, pred)) == h + Matches(a[1..], pred) + Matches(b, pred);
    }
  }

  /** device_find_by_type is the first element of device_find_all_by_type, or nothing when that
      list is empty. */
  lemma {:induction false} FirstOfAll(s: seq<Node>, pred: Device -> bool)
    ensures FirstMatch(s, pred) == null <==> Matches(s, pred) == []
    ensures FirstMatch(s, pred) != null ==>
              FirstMatch(s, pred) in s && pred(FirstMatch(s, pred).data) && Matches(s, pred)[0] == FirstMatch(s, pred).data
  {
    if s != [] { FirstOfAll(s[1..], pred); }
  }

  /** Where the first match is. */
  lemma {:induction false} FirstIndex(s: seq<Node>, pred: Device -> bool) returns (i: nat)
    ensures FirstMatch(s, pred) == null <==> forall k :: 0 <= k < |s| ==> !pred(s[k].data)
    ensures FirstMatch(s, pred) != null ==>
              i < |s| && s[i] == FirstMatch(s, pred) && pred(s[i].data) && forall k :: 0 <= k < i ==> !pred(s[k].data)
  {
    i := 0;
    if s != [] && !pred(s[0].data) {
      i := FirstIndex(s[1..], pred);
      forall k | 0 <= k < |s| && k > 0 ensures s[k] == s[1..][k - 1] {}
      i := i + 1;
    }
  }

  /** Position k of `at` is that of the k-th device. */
  ghost predicate StandsAt(s: seq<Node>, from: nat, kind: nat, ds: seq<Device>, at: seq<nat>, k: nat)
    requires k < |at| == |ds|
  {
    from <= at[k] < |s| && ds[k] == s[at[k]].data && ds[k].kind == kind
  }

  ghost predicate Ascending(at: seq<nat>) {
    forall k, l :: 0 <= k < l < |at| ==> at[k] < at[l]
  }

  /** Node i is not of that kind, or its position is in `at`. */
  ghost predicate Listed(s: seq<Node>, kind: nat, at: seq<nat>, i: nat)
    requires i < |s|
  {
    s[i].data.kind == kind ==> i in at
  }

  /** ds are the devices of that kind in s from position `from` on: they stand at the ascending
      positions `at`, and none is left out. */
  ghost predicate OfKindAt(s: seq<Node>, from: nat, kind: nat, ds: seq<Device>, at: seq<nat>) {
    && |at| == |ds| && Ascending(at)
    && (forall k :: 0 <= k < |at| ==> StandsAt(s, from, kind, ds, at, k))
    && (forall i :: from <= i < |s| ==> Listed(s, kind, at, i))
  }

  lemma {:induction false} KindPositions(s: seq<Node>, from: nat, kind: nat) returns (at: seq<nat>)
    requires from <= |s|
    ensures OfKindAt(s, from, kind, Matches(s[from..], OfKind(kind)), at)
    decreases |s| - from
  {
    if from == |s| {
      at := [];
    } else {
      var rest := KindPositions(s, from + 1, kind);
      assert s[from..][0] == s[from] && s[from..][1..] == s[from + 1..];
      var ds := Matches(s[from + 1..], OfKind(kind));
      assert Matches(s[from..], OfKind(kind)) == (if s[from].data.kind == kind then [s[from].data] else []) + ds;
      hide Matches;
      at := OneMorePosition(s, from, kind, ds, rest);
    }
  }

  lemma OneMorePosition(s: seq<Node>, from: nat, kind: nat, ds: seq<Device>, rest: seq<nat>) returns (at: seq<nat>)
    requires from < |s| && OfKindAt(s, from + 1, kind, ds, rest)
    ensures OfKindAt(s, from, kind, (if s[from].data.kind == kind then [s[from].data] else []) + ds, at)
  {
    var hit := s[from].data.kind == kind;
    var h := if hit then 1 else 0;
    at := (if hit then [from] else []) + rest;
    var es := (if hit then [s[from].data] else []) + ds;
    forall k | 0 <= k < |at| ensures StandsAt(s, from, kind, es, at, k) {
      if k >= h {
        assert StandsAt(s, from + 1, kind, ds, rest, k - h);
        assert at[k] == rest[k - h] && es[k] == ds[k - h];
      }
    }
    forall k, l | 0 <= k < l < |at| ensures at[k] < at[l] {
      assert StandsAt(s, from + 1, kind, ds, rest, l - h) && at[l] == rest[l - h];
      if k >= h { assert at[k] == rest[k - h]; }
    }
    forall i | from <= i < |s| ensures Listed(s, kind, at, i) {
      if i > from { assert Listed(s, kind, rest, i); } else { assert hit ==> at[0] == i; }
    }
  }

  /** What a callback makes of its user data when it is called on one node after the other. */
  ghost function Fold<U>(s: seq<Node>, callback: (U, Node) -> U, u: U): U {
    if s == [] then u else Fold(s[1..], callback, callback(u, s[0]))
  }

  lemma {:induction false} FoldConcat<U>(a: seq<Node>, b: seq<Node>, callback: (U, Node) -> U, u: U)
    ensures Fold(a + b, callback, u) == Fold(b, callback, Fold(a, callback, u))
  {
    if a == [] {
      assert a + b == b;
    } else {
      assert (a + b)[0] == a[0] && (a + b)[1..] == a[1..] + b;
      FoldConcat(a[1..], b, callback, callback(u, a[0]));
    }
  }

  /** The callback of device_find_all_by_type, and one that records the nodes it is called on. */
  function Collect(pred: Device -> bool): (seq<Device>, Node) -> seq<Device> {
    (found: seq<Device>, n: Node) => if pred(n.data) then found + [n.data] else found
  }

  function Record(): (seq<Node>, Node) -> seq<Node> {
    (visited: seq<Node>, n: Node) => visited + [n]
  }

  lemma {:induction false} FoldCollects(s: seq<Node>, pred: Device -> bool, found: seq<Device>)
    ensures Fold(s, Collect(pred), found) == found + Matches(s, pred)
  {
    if s != [] {
      var h := if pred(s[0].data) then [s[0].data] else [];
      assert Collect(pred)(found, s[0]) == found + h;
      FoldCollects(s[1..], pred, found + h);
      assert found + h + Matches(s[1..], pred) == found + (h + Matches(s[1..], pred));
    } else {
      assert found + [] == found;
    }
  }

  lemma {:induction false} FoldRecords(s: seq<Node>, visited: seq<Node>)
    ensures Fold(s, Record(), visited) == visited + s
  {
    if s != [] {
      FoldRecords(s[1..], visited + [s[0]]);
      assert visited + [s[0]] + s[1..] == visited + s;
    }
  }

  /** A new node that holds a device no other node holds is the one a search for it finds. */
  lemma FoundAfterGraft(t: Tree, p: Node, x: Node, d: Device)
    requires p in Preorder(t) && x.data == d && FirstMatch(Preorder(t), SameAs(d)) == null
    ensures FirstMatch(Preorder(Grafted(t, p, x)), SameAs(d)) == x
  {
    var a, b := Before(t, p) + Preorder(Sub(t, p)), After(t, p);
    SubSegment(t, p);
    InsertSegment(t, p, x);
    SearchConcat(a, b, SameAs(d));
    SearchConcat(a + [x], b, SameAs(d));
    SearchConcat(a, [x], SameAs(d));
  }

  /** The links recorded in l are the current ones, for the nodes ns. */
  ghost predicate Current(l: Links, ns: seq<Node>)
    reads set n | n in ns
  {
    forall n :: n in ns ==> n in l && l[n] == Cell(n.parent, n.slide, n.child)
  }

  /** _generic_tree_find_recursive: the first match in pre-order. */
  method FindIn(n: Node, pred: Device -> bool, ghost l: Links, ghost t: Tree) returns (r: Node?)
    requires Rep(l, t) && t.node == n && Current(l, Preorder(t))
    ensures r == FirstMatch(Preorder(t), pred)
    decreases t
  {
    RepParts(l, t);
    SearchConcat([n], PreorderAll(t.kids), pred);
    assert FirstMatch([n], pred) == if pred(n.data) then n else FirstMatch([], pred);
    hide Chain, Rep, Preorder, PreorderAll, FirstMatch;
    if pred(n.data) {
      return n;
    }
    var curr := n.child;
    ghost var j := 0;
    assert t.kids[0..] == t.kids;
    while curr != null
      invariant j <= |t.kids| && Chain(l, t.kids[j..], n) && curr == First(t.kids[j..]) && Current(l, PreorderAll(t.kids[j..]))
      invariant FirstMatch(PreorderAll(t.kids), pred) == FirstMatch(PreorderAll(t.kids[j..]), pred)
      decreases |t.kids| - j
    {
      ghost var ts := t.kids[j..];
      assert ts[0] == t.kids[j] && ts[1..] == t.kids[j + 1..];
      ChainParts(l, ts, n);
      CurrentParts(l, Preorder(ts[0]), PreorderAll(ts[1..]));
      SearchConcat(Preorder(ts[0]), PreorderAll(ts[1..]), pred);
      r := FindIn(curr, pred, l, ts[0]);
      if r != null {
        return;
      }
      curr := curr.slide;
      j := j + 1;
    }
    assert t.kids[j..] == [];
    NoMatch(pred);
    r := null;
  }

  lemma NoMatch(pred: Device -> bool)
    ensures FirstMatch(PreorderAll([]), pred) == null
  {}

  /** The parts of a tree, for a walk over it. */
  lemma RepParts(l: Links, t: Tree)
    requires Rep(l, t)
    ensures Preorder(t) == [t.node] + PreorderAll(t.kids) && t.node in Preorder(t)
    ensures l[t.node].child == First(t.kids) && Chain(l, t.kids, t.node)
  {}

  lemma CurrentParts(l: Links, a: seq<Node>, b: seq<Node>)
    requires Current(l, a + b)
    ensures Current(l, a) && Current(l, b)
  {
    assert forall n :: n in a || n in b ==> n in a + b;
  }

  lemma ChainParts(l: Links, ts: seq<Tree>, p: Node)
    requires Chain(l, ts, p) && ts != []
    ensures PreorderAll(ts) == Preorder(ts[0]) + PreorderAll(ts[1..]) && ts[0].node in Preorder(ts[0])
    ensures Rep(l, ts[0]) && l[ts[0].node].slide == First(ts[1..]) && Chain(l, ts[1..], p)
  {}

  /** _generic_tree_callback_foreach_recursive, for any callback. */
  method ForeachIn<U>(n: Node, callback: (U, Node) -> U, u: U, ghost l: Links, ghost t: Tree) returns (r: U)
    requires Rep(l, t) && t.node == n && Current(l, Preorder(t))
    ensures r == Fold(Preorder(t), callback, u)
    decreases t
  {
    RepParts(l, t);
    r := callback(u, n);
    assert Preorder(t)[1..] == PreorderAll(t.kids);
    assert Fold(Preorder(t), callback, u) == Fold(PreorderAll(t.kids), callback, r);
    hide Chain, Rep, Preorder, PreorderAll, Fold;
    var curr := n.child;
    ghost var j := 0;
    assert t.kids[0..] == t.kids;
    while curr != null
      invariant j <= |t.kids| && Chain(l, t.kids[j..], n) && curr == First(t.kids[j..]) && Current(l, PreorderAll(t.kids[j..]))
      invariant Fold(Preorder(t), callback, u) == Fold(PreorderAll(t.kids[j..]), callback, r)
      decreases |t.kids| - j
    {
      ghost var ts := t.kids[j..];
      assert ts[0] == t.kids[j] && ts[1..] == t.kids[j + 1..];
      ChainParts(l, ts, n);
      CurrentParts(l, Preorder(ts[0]), PreorderAll(ts[1..]));
      FoldConcat(Preorder(ts[0]), PreorderAll(ts[1..]), callback, r);
      r := ForeachIn(curr, callback, r, l, ts[0]);
      curr := curr.slide;
      j := j + 1;
    }
    assert t.kids[j..] == [];
    FoldNothing(callback, r);
  }

  lemma FoldNothing<U>(callback: (U, Node) -> U, u: U)
    ensures Fold(PreorderAll([]), callback, u) == u
  {}

  // ----- the registry -----

  ghost function NodesOf(shape: Option<Tree>): seq<Node> {
    if shape.None? then [] else Preorder(shape.value)
  }

  ghost function SetOf(s: seq<Node>): set<Node> { set n | n in s }

  class Registry {
    var root: Node?
    ghost var shape: Option<Tree>

    ghost function All(): seq<Node>
      reads this
    {
      NodesOf(shape)
    }

    ghost predicate Valid()
      reads this, SetOf(All())
    {
      match shape
      case None => root == null
      case Some(t) =>
        && root == t.node && t.node in Preorder(t)
        && Distinct(Preorder(t)) && Rep(Snapshot(SetOf(Preorder(t))), t)
        && t.node.parent == null && t.node.slide == null
    }

    /** device_init, after its allocations. */
    constructor (r: Node)
      requires r.parent == null && r.slide == null && r.child == null
      ensures Valid() && root == r && All() == [r]
    {
      root := r;
      shape := Some(Tree(r, []));
      new;
      assert Preorder(Tree(r, [])) == [r];
      assert Chain(Snapshot({r}), [], r);
      assert SetOf([r]) == {r};
    }

    /** generic_tree_insert. */
    method Insert(p: Node?, x: Node?)
      requires Valid() && (p != null ==> p in All())
      requires x != null ==> x !in All() && x.parent == null && x.slide == null && x.child == null
      modifies this`shape, SetOf(All()), x
      ensures Valid() && root == old(root)
      ensures p == null || x == null ==> shape == old(shape)
      ensures p != null && x != null ==> shape == Some(Grafted(old(shape.value), p, x)) && x.parent == p
    {
      if p == null || x == null {
        return;
      }
      hide Rep, Chain, Preorder, PreorderAll, Grafted, Sub, Distinct, HookedAt, First;
      ghost var t := shape.value;
      ghost var ns := SetOf(Preorder(t));
      ghost var l := Snapshot(ns);
      ghost var s := SubFacts(l, t, p);
      Append(p, x, ns, l, s);
      InsertGrows(t, p, x);
      ghost var m := Snapshot(SetOf(Preorder(Grafted(t, p, x))));
      GraftedRep(l, m, t, p, x);
      shape := Some(Grafted(t, p, x));
    }

    /** The pointer writes of an insertion. */
    method Append(p: Node, x: Node, ghost ns: set<Node>, ghost l: Links, ghost s: Tree)
      requires l == Snapshot(ns) && Rep(l, s) && s.node == p && (forall n :: n in Preorder(s) ==> n in ns)
      requires x !in ns && x.slide == null && x.child == null
      modifies ns, x
      ensures forall n :: n in ns ==> HookedAt(l, Snapshot(ns + {x}), s, x, n)
      ensures x.parent == p && x.slide == null && x.child == null
    {
      HookIn(s);
      if p.child == null {
        p.child := x;
      } else {
        var last := LastChild(p, l, s);
        last.slide := x;
      }
      x.parent := p;
    }

    /** The walk to the last child. */
    method LastChild(p: Node, ghost l: Links, ghost s: Tree) returns (last: Node)
      requires Rep(l, s) && s.node == p && p.child != null && Current(l, Preorder(s))
      ensures s.kids != [] && last == s.kids[|s.kids| - 1].node
    {
      last := p.child;
      ghost var i := 0;
      while last.slide != null
        invariant i < |s.kids| && last == s.kids[i].node
        invariant Chain(l, s.kids, p)
        decreases |s.kids| - i
      {
        LinkAt(l, s, i);
        last := last.slide;
        i := i + 1;
      }
      LinkAt(l, s, i);
    }

    /** generic_tree_remove. */
    method Remove(x: Node?)
      requires Valid() && (x != null ==> x in All())
      modifies this, SetOf(All())
      ensures Valid()
      ensures x == null ==> shape == old(shape)
      ensures x != null ==>
                && shape == (if x == old(root) then None else PrunedShape(old(shape.value), x))
                && x.parent == null && x.slide == null
    {
      if x == null {
        return;
      }
      ghost var t := shape.value;
      if x.parent != null {
        assert x != t.node && x in PreorderAll(t.kids);
        Unlink(x.parent, x, t);
        return;
      }
      ParentOf(Snapshot(SetOf(Preorder(t))), t, x);
      assert x == t.node;
      root := null;
      x.parent := null;
      x.slide := null;
      shape := None;
    }

    /** Takes x out of the child list of its parent. */
    method Unlink(parent: Node, x: Node, ghost t: Tree)
      requires Valid() && shape == Some(t) && x in PreorderAll(t.kids) && x.parent == parent
      modifies this`shape, SetOf(All())
      ensures Valid() && shape == Some(Pruned(t, x)) && x.parent == null && x.slide == null
    {
      hide Rep, Preorder, Pruned, Host, Distinct, ReleasedAt;
      ghost var ns := SetOf(Preorder(t));
      ghost var l := Snapshot(ns);
      ghost var s, i := HostIndex(l, t, x);
      Relink(parent, x, ns, l, s, i);
      ghost var m := Snapshot(ns);
      PrunedShrinks(t, x);
      ghost var r := Snapshot(SetOf(Preorder(Pruned(t, x))));
      forall n | n in Preorder(Pruned(t, x)) ensures n in m && n in r && r[n] == m[n] {
        assert n in SetOf(Preorder(Pruned(t, x)));
      }
      PrunedRep(l, m, r, t, x, i);
      shape := Some(Pruned(t, x));
    }

    /** The pointer writes of a removal. */
    method Relink(parent: Node, x: Node, ghost ns: set<Node>, ghost l: Links, ghost s: Tree, ghost i: nat)
      requires l == Snapshot(ns) && Rep(l, s) && Distinct(Preorder(s)) && Distinct(PreorderAll(s.kids))
      requires (forall n :: n in Preorder(s) ==> n in ns) && i < |s.kids| && s.kids[i].node == x && x.parent == parent
      modifies ns
      ensures forall n :: n in ns ==> ReleasedAt(l, Snapshot(ns), s, i, n)
      ensures x.parent == null && x.slide == null
    {
      LinkAt(l, s, i);
      if i > 0 { LinkAt(l, s, i - 1); }
      GripApart(s, i);
      var prev := parent.child;
      var next := x.slide;
      if prev == x {
        KidsDistinct(s.kids, 0, i);
        parent.child := next;
      } else {
        prev := PrevChild(prev, x, l, s, i);
        prev.slide := next;
      }
      x.parent := null;
      x.slide := null;
    }

    /** The walk to the child before x. */
    method PrevChild(first: Node, x: Node, ghost l: Links, ghost s: Tree, ghost i: nat) returns (prev: Node)
      requires Rep(l, s) && Distinct(PreorderAll(s.kids)) && Current(l, Preorder(s))
      requires i < |s.kids| && s.kids[i].node == x && First(s.kids) == first && first != x
      ensures i > 0 && prev == s.kids[i - 1].node
    {
      prev := first;
      ghost var k := 0;
      while prev.slide != x
        invariant k < i && prev == s.kids[k].node
        decreases i - k
      {
        LinkAt(l, s, k);
        LinkAt(l, s, k + 1);
        prev := prev.slide;
        k := k + 1;
      }
      LinkAt(l, s, k);
      KidsDistinct(s.kids, k + 1, i);
    }

    // ----- device.c -----

    /** generic_tree_find: the first node in pre-order whose device satisfies the comparison. */
    method Find(pred: Device -> bool) returns (r: Node?)
      requires Valid()
      ensures r == FirstMatch(All(), pred)
    {
      if root == null {
        return null;
      }
      r := FindIn(root, pred, Snapshot(SetOf(All())), shape.value);
    }

    /** device_register: a new last child of the root. */
    method Register(d: Device) returns (x: Node)
      requires Valid()
      modifies this`shape, SetOf(All())
      ensures Valid() && root == old(root)
      ensures fresh(x) && x.data == d
      ensures root != null ==> root in old(All()) && shape == Some(Grafted(old(shape.value), root, x))
      ensures root == null ==> shape == old(shape)
    {
      hide Rep, Chain, Preorder, Distinct, Grafted, Pruned, PrunedShape, FirstMatch;
      ghost var ns := SetOf(All());
      x := new Node(d);
      assert x !in ns;
      Insert(root, x);
    }

    /** device_register_at: a new last child of the first node that holds `at`. */
    method RegisterAt(d: Device, at: Device?) returns (status: int, x: Node?, ghost i: nat)
      requires Valid()
      modifies this`shape, SetOf(All())
      ensures Valid() && root == old(root)
      ensures status == (if old(Holder(All(), at)) == null then -1 else 0)
      ensures status == -1 ==> shape == old(shape)
      ensures status == 0 ==>
                && x != null && fresh(x) && x.data == d && old(Holder(All(), at)) in old(All())
                && shape == Some(Grafted(old(shape.value), old(Holder(All(), at)), x))
      // the holder is the first node with that device
      ensures status == -1 <==> at == null || forall k :: 0 <= k < |old(All())| ==> old(All())[k].data != at
      ensures status == 0 ==> FirstWith(old(All()), at, i) && old(Holder(All(), at)) == old(All())[i]
    {
      hide Rep, Chain, Preorder, Distinct, Grafted, Pruned, PrunedShape, FirstMatch;
      ghost var ns := SetOf(All());
      HolderIn(All(), at);
      i := HolderIndex(All(), at);
      if at == null {
        return -1, null, i;
      }
      var p := Find(SameAs(at));
      if p == null {
        return -1, null, i;
      }
      x := new Node(d);
      assert x !in ns;
      Insert(p, x);
      status := 0;
    }

    /** device_unregister: the first node that holds d leaves the tree, with its subtree. */
    method Unregister(d: Device?) returns (status: int, ghost i: nat)
      requires Valid()
      modifies this, SetOf(All())
      ensures Valid()
      ensures status == (if old(Holder(All(), d)) == null then -1 else 0)
      ensures status == -1 ==> shape == old(shape)
      ensures status == 0 ==>
                shape == (if old(Holder(All(), d)) == old(root) then None else PrunedShape(old(shape.value), old(Holder(All(), d))))
      // the holder is the first node with that device
      ensures status == -1 <==> d == null || forall k :: 0 <= k < |old(All())| ==> old(All())[k].data != d
      ensures status == 0 ==> FirstWith(old(All()), d, i) && old(Holder(All(), d)) == old(All())[i]
    {
      hide Rep, Chain, Preorder, Distinct, Grafted, Pruned, PrunedShape, FirstMatch;
      ghost var ns := SetOf(All());
      HolderIn(All(), d);
      i := HolderIndex(All(), d);
      if d == null {
        return -1, i;
      }
      var n := Find(SameAs(d));
      assert Snapshot(ns) == old(Snapshot(SetOf(All())));
      if n == null {
        return -1, i;
      }
      Remove(n);
      status := 0;
    }

    /** Unregistering a device that was just registered restores the tree. */
    method RegisterThenUnregister(d: Device) returns (status: int)
      requires Valid() && root != null && Holder(All(), d) == null
      modifies this, SetOf(All())
      ensures Valid() && root == old(root) && shape == old(shape) && status == 0
    {
      hide Rep, Chain, Preorder, Distinct, Grafted, Pruned, FirstMatch, PreorderAll;
      ghost var t := shape.value;
      ghost var r := t.node;
      ghost var ns := SetOf(All());
      assert Distinct(Preorder(t)) && forall n :: n in Preorder(t) ==> n in ns;
      var x := Register(d);
      assert x !in ns;
      InsertGrows(t, r, x);
      GraftUndone(t, r, x, d);
      ghost var i;
      status, i := Unregister(d);
    }

    /** device_find_by_type: the first device of that kind in pre-order, which is also the first of
        what device_find_all_by_type collects. */
    method FindByType(kind: nat) returns (d: Device?)
      requires Valid()
      ensures d == (if Matches(All(), OfKind(kind)) == [] then null else Matches(All(), OfKind(kind))[0])
      ensures d == null <==> forall n :: n in All() ==> n.data.kind != kind
      ensures d != null ==>
                && d.kind == kind
                && exists i :: 0 <= i < |All()| && All()[i].data == d && forall j :: 0 <= j < i ==> All()[j].data.kind != kind
    {
      var pred := OfKind(kind);
      ghost var s := All();
      FirstOfAll(s, pred);
      ghost var i := FirstIndex(s, pred);
      assert forall e: Device :: pred(e) <==> e.kind == kind;
      hide Matches, FirstMatch, OfKind;
      var n := Find(pred);
      d := if n == null then null else n.data;
    }

    /** device_find_all_by_type: the devices of that kind in pre-order; `at` says where they are. */
    method FindAllByType(kind: nat) returns (ds: seq<Device>, ghost at: seq<nat>)
      requires Valid()
      ensures ds == Matches(All(), OfKind(kind))
      ensures OfKindAt(All(), 0, kind, ds, at)
    {
      var pred := OfKind(kind);
      FoldCollects(All(), pred, []);
      at := KindPositions(All(), 0, kind);
      assert All()[0..] == All();
      hide Matches, OfKind, OfKindAt, Fold;
      ds := Foreach(Collect(pred), []);
    }

    /** generic_tree_callback_foreach: the callback meets the nodes in pre-order. */
    method Foreach<U>(callback: (U, Node) -> U, u: U) returns (r: U)
      requires Valid()
      ensures r == Fold(All(), callback, u)
    {
      if root == null {
        return u;
      }
      r := ForeachIn(root, callback, u, Snapshot(SetOf(All())), shape.value);
    }

    /** A foreach meets every node exactly once. */
    method Visit() returns (visited: seq<Node>)
      requires Valid()
      ensures visited == All() && forall i, j :: 0 <= i < j < |visited| ==> visited[i] != visited[j]
    {
      FoldRecords(All(), []);
      visited := Foreach(Record(), []);
    }
  }

  /** The first node in pre-order that holds device d; no node holds the null device. */
  ghost function Holder(ns: seq<Node>, d: Device?): Node? {
    if d == null then null else FirstMatch(ns, SameAs(d))
  }

  /** Node i is the first of s that holds d. */
  ghost predicate FirstWith(s: seq<Node>, d: Device?, i: nat) {
    i < |s| && s[i].data == d && forall k :: 0 <= k < i ==> s[k].data != d
  }

  lemma HolderIndex(ns: seq<Node>, d: Device?) returns (i: nat)
    ensures Holder(ns, d) == null <==> d == null || forall k :: 0 <= k < |ns| ==> ns[k].data != d
    ensures Holder(ns, d) != null ==> FirstWith(ns, d, i) && Holder(ns, d) == ns[i]
  {
    i := 0;
    if d != null { i := FirstIndex(ns, SameAs(d)); }
  }

  lemma HolderIn(ns: seq<Node>, d: Device?)
    ensures Holder(ns, d) != null ==> Holder(ns, d) in ns
  {
    if d != null { FirstOfAll(ns, SameAs(d)); }
  }

  lemma GraftUndone(t: Tree, p: Node, x: Node, d: Device)
    requires p in Preorder(t) && x !in Preorder(t) && x.data == d && Holder(Preorder(t), d) == null
    ensures Holder(Preorder(Grafted(t, p, x)), d) == x
    ensures PrunedShape(Grafted(t, p, x), x) == Some(t)
  {
    FoundAfterGraft(t, p, x, d);
    GraftedThenPruned(t, p, x);
  }

  lemma GripApart(s: Tree, i: nat)
    requires Distinct(Preorder(s)) && i < |s.kids|
    ensures Grip(s, i) != s.kids[i].node && s.node != s.kids[i].node
    ensures forall k :: 0 <= k < |s.kids| ==> s.kids[k].node != s.node
    ensures First(s.kids[i + 1..]) == if i + 1 < |s.kids| then s.kids[i + 1].node else null
  {
    TreeParts(s);
    forall k | 0 <= k < |s.kids| ensures s.kids[k].node != s.node { RootIn(s.kids, k); }
    if i > 0 && s.kids[i - 1].node == s.kids[i].node { KidsDistinct(s.kids, i - 1, i); }
  }

  lemma SubFacts(l: Links, t: Tree, p: Node) returns (s: Tree)
    requires Rep(l, t) && p in Preorder(t)
    ensures s == Sub(t, p) && s.node == p && Rep(l, s) && forall n :: n in Preorder(s) ==> n in Preorder(t)
  {
    s := Sub(t, p);
    SubRep(l, t, p);
  }

  lemma GraftedRep(l: Links, m: Links, t: Tree, p: Node, x: Node)
    requires Rep(l, t) && Distinct(Preorder(t)) && p in Preorder(t) && x !in Preorder(t)
    requires x in m && m[x] == Cell(p, null, null)
    requires forall n :: n in Preorder(t) ==> HookedAt(l, m, Sub(t, p), x, n)
    ensures Rep(m, Grafted(t, p, x)) && t.node in Preorder(Grafted(t, p, x))
    ensures t.node in l && t.node in m && m[t.node].parent == l[t.node].parent && m[t.node].slide == l[t.node].slide
  {
    RepInsert(l, m, t, p, x);
    HookPlace(t, p, l);
    assert HookedAt(l, m, Sub(t, p), x, t.node);
  }

  lemma HostIndex(l: Links, t: Tree, x: Node) returns (s: Tree, i: nat)
    requires Rep(l, t) && Distinct(Preorder(t)) && x in PreorderAll(t.kids)
    ensures s == Host(t, x) && Rep(l, s) && Distinct(Preorder(s)) && Distinct(PreorderAll(s.kids))
    ensures i < |s.kids| && s.kids[i].node == x
    ensures forall n :: n in Preorder(s) ==> n in Preorder(t)
    ensures x in Preorder(t)
  {
    s := Host(t, x);
    TreeParts(t);
    HostFacts(l, t, x);
    HostDistinct(t, x);
    i := RootIndex(s.kids, x);
  }

  /** The links of the nodes that remain represent the pruned tree. */
  lemma PrunedRep(l: Links, m: Links, r: Links, t: Tree, x: Node, i: nat)
    requires Rep(l, t) && Distinct(Preorder(t)) && x in PreorderAll(t.kids)
    requires i < |Host(t, x).kids| && Host(t, x).kids[i].node == x
    requires forall n :: n in Preorder(t) ==> ReleasedAt(l, m, Host(t, x), i, n)
    requires forall n :: n in Preorder(Pruned(t, x)) ==> n in m && n in r && r[n] == m[n]
    ensures Rep(r, Pruned(t, x)) && t.node in Preorder(Pruned(t, x))
    ensures t.node in l && t.node in m && m[t.node].parent == l[t.node].parent && m[t.node].slide == l[t.node].slide
  {
    RepRemove(l, m, t, x, i);
    RepSame(m, r, Pruned(t, x));
    TreeParts(t);
    HostFacts(l, t, x);
    var s := Host(t, x);
    if i > 0 { RootIn(s.kids, i - 1); }
    assert ReleasedAt(l, m, s, i, t.node);
  }

  lemma RootIndex(ts: seq<Tree>, x: Node) returns (i: nat)
    requires HasRoot(ts, x)
    ensures i < |ts| && ts[i].node == x
  {
    i :| 0 <= i < |ts| && ts[i].node == x;
  }

  /** Every node but the root has a parent. */
  lemma ParentOf(l: Links, t: Tree, x: Node)
    requires Rep(l, t)
    ensures x in PreorderAll(t.kids) ==> x in l && l[x].parent != null
  {
    if x in PreorderAll(t.kids) {
      HostFacts(l, t, x);
      var s := Host(t, x);
      var i :| 0 <= i < |s.kids| && s.kids[i].node == x;
      LinkAt(l, s, i);
    }
  }

  lemma {:induction false} HostDistinct(t: Tree, x: Node)
    requires Distinct(Preorder(t)) && x in PreorderAll(t.kids)
    ensures Distinct(Preorder(Host(t, x))) && Distinct(PreorderAll(Host(t, x).kids))
    decreases t, 1
  {
    TreeParts(t);
    if !HasRoot(t.kids, x) { HostDistinctAll(t.kids, x); }
  }

  lemma {:induction false} HostDistinctAll(ts: seq<Tree>, x: Node)
    requires Distinct(PreorderAll(ts)) && x in PreorderAll(ts) && !HasRoot(ts, x)
    ensures Distinct(Preorder(HostAll(ts, x))) && Distinct(PreorderAll(HostAll(ts, x).kids))
    decreases ts, 0
  {
    ForestParts(ts);
    assert ts[0].node != x;
    if x in Preorder(ts[0]) {
      HostDistinct(ts[0], x);
    } else {
      assert forall i :: 0 <= i < |ts[1..]| ==> ts[1..][i] == ts[i + 1];
      HostDistinctAll(ts[1..], x);
    }
  }

  lemma PrunedShrinks(t: Tree, x: Node)
    requires Distinct(Preorder(t)) && x in PreorderAll(t.kids)
    ensures Distinct(Preorder(Pruned(t, x))) && SetOf(Preorder(Pruned(t, x))) <= SetOf(Preorder(t)) - {x}
    ensures Pruned(t, x).node == t.node
  {
    TreeParts(t);
    RemoveSegment(t, x);
    SubSegment(t, x);
    var a, b, c := Before(t, x), Preorder(Sub(t, x)), After(t, x);
    DistinctSplit(a + b, c);
    DistinctSplit(a, b);
    assert x in b;
    DistinctDrop(a, b, c);
  }

  lemma DistinctDrop(a: seq<Node>, b: seq<Node>, c: seq<Node>)
    requires Distinct(a + b + c)
    ensures Distinct(a + c) && forall n :: n in b ==> n !in a + c
    ensures forall n :: n in a + c ==> n in a + b + c
  {
    var s, u := a + c, a + b + c;
    DistinctSplit(a + b, c);
    DistinctSplit(a, b);
    forall i, j | 0 <= i < j < |s| ensures s[i] != s[j] {
      assert s[i] == u[if i < |a| then i else i + |b|] && s[j] == u[if j < |a| then j else j + |b|];
    }
  }

  ghost function PrunedShape(t: Tree, x: Node): Option<Tree> {
    if x in PreorderAll(t.kids) then Some(Pruned(t, x)) else None
  }

  lemma {:induction false} KidsDistinct(ts: seq<Tree>, i: nat, j: nat)
    requires i < |ts| && j < |ts| && Distinct(PreorderAll(ts)) && ts[i].node == ts[j].node
    ensures i == j
  {
    ForestParts(ts);
    assert ts[0].node in Preorder(ts[0]);
    if i > 0 && j > 0 {
      KidsDistinct(ts[1..], i - 1, j - 1);
    } else if i > 0 {
      RootIn(ts[1..], i - 1);
    } else if j > 0 {
      RootIn(ts[1..], j - 1);
    }
  }

  lemma LinkAt(l: Links, s: Tree, i: nat)
    requires Rep(l, s) && i < |s.kids|
    ensures s.kids[i].node in Preorder(s) && s.kids[i].node in l
    ensures l[s.kids[i].node].slide == if i + 1 < |s.kids| then s.kids[i + 1].node else null
    ensures l[s.kids[i].node].parent == s.node
  {
    RootIn(s.kids, i);
    ChainAt(l, s.kids, s.node, i);
  }

  lemma DistinctWith(a: seq<Node>, b: seq<Node>, x: Node)
    requires Distinct(a + b) && x !in a + b
    ensures Distinct(a + [x] + b) && SetOf(a + [x] + b) == SetOf(a + b) + {x}
  {
    var s, u := a + [x] + b, a + b;
    forall i, j | 0 <= i < j < |s| ensures s[i] != s[j] {
      var i', j' := if i < |a| then i else i - 1, if j < |a| then j else j - 1;
      assert i != |a| ==> s[i] == u[i'];
      assert j != |a| ==> s[j] == u[j'];
    }
    forall n | n in u ensures n in s { assert n in a || n in b; }
    forall n | n in s ensures n in u || n == x { assert n in a || n == x || n in b; }
  }

  lemma InsertGrows(t: Tree, p: Node, x: Node)
    requires Distinct(Preorder(t)) && p in Preorder(t) && x !in Preorder(t)
    ensures Distinct(Preorder(Grafted(t, p, x))) && SetOf(Preorder(Grafted(t, p, x))) == SetOf(Preorder(t)) + {x}
    ensures Grafted(t, p, x).node == t.node
  {
    InsertSegment(t, p, x);
    SubSegment(t, p);
    var a, b := Before(t, p) + Preorder(Sub(t, p)), After(t, p);
    assert a + b == Preorder(t);
    DistinctWith(a, b, x);
  }
}
