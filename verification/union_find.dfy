/** The disjoint-set forest as a value: the nodes of the map in creation
    order, each holding its parent link, the set of its direct children and
    its rank. `find` and `union` are functions over that value; the class in
    module Connectivity stores the same nodes in an array and updates them in
    place. */
module UnionFind {
  import opened Wrappers

  /** One forest element: the index of its parent (None for a root), the
      nodes whose parent it is, and its rank. */
  datatype Node = Node(parent: Option<nat>, directChildren: set<nat>, rank: nat)

  /** A node as it is created: a root of rank 0 without children. */
  const Fresh := Node(None, {}, 0)

  type Forest = seq<Node>

  /** The forest invariant: parent links stay inside the forest, rank grows
      strictly along every parent link (so following links terminates), and
      each node's directChildren are exactly the nodes whose parent it is. */
  ghost predicate Valid(f: Forest) {
    && (forall i {:trigger f[i].parent} :: 0 <= i < |f| && f[i].parent.Some? ==>
          f[i].parent.value < |f| && f[i].rank < f[f[i].parent.value].rank)
    && (forall i, c {:trigger c in f[i].directChildren} :: 0 <= i < |f| && c in f[i].directChildren ==>
          c < |f| && f[c].parent == Some(i))
    && (forall c {:trigger f[c].parent} :: 0 <= c < |f| && f[c].parent.Some? ==>
          c in f[f[c].parent.value].directChildren)
  }

  predicate IsRoot(f: Forest, i: nat)
    requires i < |f|
  {
    f[i].parent == None
  }

  /** The nodes ranked above k: the measure that shrinks along parent links. */
  ghost function Above(f: Forest, k: nat): set<nat> {
    set j: nat | j < |f| && f[j].rank > k
  }

  lemma AboveShrinks(f: Forest, i: nat, p: nat)
    requires Valid(f) && i < |f| && f[i].parent == Some(p)
    ensures |Above(f, f[p].rank)| < |Above(f, f[i].rank)|
  {
    var upper, lower := Above(f, f[p].rank), Above(f, f[i].rank);
    assert upper <= lower;
    assert p in lower - upper;
    assert lower == upper + (lower - upper);
  }

  /** The root of the tree holding node i, reached by following parent links. */
  function Find(f: Forest, i: nat): (r: nat)
    requires Valid(f) && i < |f|
    ensures r < |f| && IsRoot(f, r)
    ensures IsRoot(f, i) ==> r == i
    ensures !IsRoot(f, i) ==> f[i].rank < f[r].rank
    decreases |Above(f, f[i].rank)|
  {
    match f[i].parent
    case None => i
    case Some(p) =>
      AboveShrinks(f, i, p);
      Find(f, p)
  }

  /** Nodes i and j are in the same set: their roots coincide. */
  predicate Connected(f: Forest, i: nat, j: nat)
    requires Valid(f) && i < |f| && j < |f|
  {
    Find(f, i) == Find(f, j)
  }

  /** The precondition of Link: two distinct roots whose ranks allow hanging
      `child` under `root`, bumping the rank of `root` on a tie. */
  ghost predicate CanLink(f: Forest, child: nat, root: nat, bump: bool) {
    && Valid(f) && child < |f| && root < |f| && child != root
    && IsRoot(f, child) && IsRoot(f, root)
    && (if bump then f[child].rank == f[root].rank else f[child].rank < f[root].rank)
  }

  /** Hangs root `child` under root `root`: `child` gets `root` as parent,
      `root` records `child` among its direct children, and its rank grows by
      one when `bump` is set. */
  function Link(f: Forest, child: nat, root: nat, bump: bool): (g: Forest)
    requires CanLink(f, child, root, bump)
    ensures Valid(g) && |g| == |f|
  {
    var r := f[root];
    var g := f[child := f[child].(parent := Some(root))]
              [root := r.(directChildren := r.directChildren + {child},
                          rank := if bump then r.rank + 1 else r.rank)];
    LinkedIsValid(f, child, root, bump, g);
    g
  }

  /** The forest invariant survives a link, given the linked forest node by node. */
  lemma LinkedIsValid(f: Forest, child: nat, root: nat, bump: bool, g: Forest)
    requires CanLink(f, child, root, bump) && Valid(f) && |g| == |f|
    requires g[child] == f[child].(parent := Some(root))
    requires g[root] == f[root].(directChildren := f[root].directChildren + {child},
                                 rank := if bump then f[root].rank + 1 else f[root].rank)
    requires forall i :: 0 <= i < |f| && i != child && i != root ==> g[i] == f[i]
    ensures Valid(g)
  {
    forall i | 0 <= i < |g| && g[i].parent.Some?
      ensures g[i].parent.value < |g| && g[i].rank < g[g[i].parent.value].rank
    {
      if i != child {
        var p := f[i].parent.value;
        assert f[p].rank <= g[p].rank;
      }
    }
    forall i, c | 0 <= i < |g| && c in g[i].directChildren
      ensures c < |g| && g[c].parent == Some(i)
    {
      if !(i == root && c == child) {
        if i == root {
          assert c in f[root].directChildren;
        } else if i == child {
          assert c in f[child].directChildren;
        } else {
          assert g[i] == f[i];
          assert c in f[i].directChildren;
        }
        assert c < |f| && f[c].parent == Some(i);
        assert c != child && c != root;
        assert g[c] == f[c];
      }
    }
    forall c | 0 <= c < |g| && g[c].parent.Some?
      ensures c in g[g[c].parent.value].directChildren
    {
      if c != child {
        assert c in f[f[c].parent.value].directChildren;
      }
    }
  }

  /** Union by rank of the sets holding a and b: nothing changes when they
      already share a root; otherwise the lower-ranked root goes under the
      other, and on a tie the root of a goes under the root of b, whose rank
      grows by one. */
  function Union(f: Forest, a: nat, b: nat): (g: Forest)
    requires Valid(f) && a < |f| && b < |f|
    ensures Valid(g) && |g| == |f|
  {
    var root1, root2 := Find(f, a), Find(f, b);
    if root1 == root2 then f
    else if f[root1].rank < f[root2].rank then Link(f, root1, root2, false)
    else if f[root1].rank > f[root2].rank then Link(f, root2, root1, false)
    else Link(f, root1, root2, true)
  }

  /** After a link, every node of `child`'s tree finds `root`; every other
      node finds the root it found before. */
  lemma {:induction false} FindLink(f: Forest, child: nat, root: nat, bump: bool, x: nat)
    requires CanLink(f, child, root, bump) && x < |f|
    ensures Find(Link(f, child, root, bump), x) == if Find(f, x) == child then root else Find(f, x)
    decreases |Above(f, f[x].rank)|
  {
    var g := Link(f, child, root, bump);
    match f[x].parent
    case None =>
      if x == child {
        assert g[x].parent == Some(root) && IsRoot(g, root);
      }
    case Some(p) =>
      AboveShrinks(f, x, p);
      FindLink(f, child, root, bump, p);
  }

  /** Union merges exactly the two sets of a and b: afterwards x and y are in
      the same set iff they were before, or one was with a and the other with
      b. */
  lemma UnionMerges(f: Forest, a: nat, b: nat, x: nat, y: nat)
    requires Valid(f) && a < |f| && b < |f| && x < |f| && y < |f|
    ensures Connected(Union(f, a, b), x, y) <==>
      (|| Connected(f, x, y)
       || (Connected(f, x, a) && Connected(f, y, b))
       || (Connected(f, x, b) && Connected(f, y, a)))
  {
    var root1, root2 := Find(f, a), Find(f, b);
    if root1 != root2 {
      var child, root, bump :=
        if f[root1].rank < f[root2].rank then root1 else if f[root1].rank > f[root2].rank then root2 else root1,
        if f[root1].rank < f[root2].rank then root2 else if f[root1].rank > f[root2].rank then root1 else root2,
        f[root1].rank == f[root2].rank;
      assert Union(f, a, b) == Link(f, child, root, bump);
      FindLink(f, child, root, bump, x);
      FindLink(f, child, root, bump, y);
    }
  }

  /** Union never separates: nodes in one set stay in one set. */
  lemma UnionKeeps(f: Forest, a: nat, b: nat, x: nat, y: nat)
    requires Valid(f) && a < |f| && b < |f| && x < |f| && y < |f|
    requires Connected(f, x, y)
    ensures Connected(Union(f, a, b), x, y)
  {
    UnionMerges(f, a, b, x, y);
  }

  /** Union of a and b leaves the forest as it is when they share a root;
      otherwise exactly one of the two roots gets the other as its parent,
      and afterwards a and b find the same root. */
  lemma UnionLinksRoots(f: Forest, a: nat, b: nat)
    requires Valid(f) && a < |f| && b < |f|
    ensures var g, root1, root2 := Union(f, a, b), Find(f, a), Find(f, b);
      && (root1 == root2 ==> g == f)
      && (root1 != root2 ==>
            || (g[root1].parent == Some(root2) && IsRoot(g, root2))
            || (g[root2].parent == Some(root1) && IsRoot(g, root1)))
      && Find(g, a) == Find(g, b)
  {
    UnionMerges(f, a, b, a, b);
  }

  /** The rank rule and the frame of union: when a and b are in different
      sets only their two roots change; the lower-ranked root is attached
      under the other with no rank changing, a tie attaches the root of a
      under the root of b and raises that rank by one; the attached root
      joins the new root's directChildren, and only a root's rank changes. */
  lemma UnionByRank(f: Forest, a: nat, b: nat)
    requires Valid(f) && a < |f| && b < |f|
    ensures var g, root1, root2 := Union(f, a, b), Find(f, a), Find(f, b);
      var rank1, rank2 := f[root1].rank, f[root2].rank;
      && (forall j :: 0 <= j < |f| && j != root1 && j != root2 ==> g[j] == f[j])
      && (forall j :: 0 <= j < |f| && g[j].rank != f[j].rank ==> IsRoot(f, j))
      && (root1 != root2 && rank1 < rank2 ==>
            && g[root1] == f[root1].(parent := Some(root2))
            && g[root2] == f[root2].(directChildren := f[root2].directChildren + {root1}))
      && (root1 != root2 && rank1 > rank2 ==>
            && g[root2] == f[root2].(parent := Some(root1))
            && g[root1] == f[root1].(directChildren := f[root1].directChildren + {root2}))
      && (root1 != root2 && rank1 == rank2 ==>
            && g[root1] == f[root1].(parent := Some(root2))
            && g[root2] == f[root2].(directChildren := f[root2].directChildren + {root1}, rank := rank2 + 1))
  {
  }

  /** Appending a fresh node keeps the forest invariant. */
  lemma FreshKeepsValid(f: Forest)
    requires Valid(f)
    ensures Valid(f + [Fresh])
  {
    var g := f + [Fresh];
    assert forall i :: 0 <= i < |f| ==> g[i] == f[i];
    forall i, c | 0 <= i < |g| && c in g[i].directChildren
      ensures c < |g| && g[c].parent == Some(i)
    {
      assert c in f[i].directChildren;
      assert c < |f| && f[c].parent == Some(i);
      assert g[c] == f[c];
    }
  }

  /** Creating a node: the forest with one fresh node appended is still a
      forest, every older node keeps its root, and the new node is a root of
      its own. */
  lemma {:induction false} AppendFresh(f: Forest, x: nat)
    requires Valid(f) && x <= |f|
    ensures Valid(f + [Fresh])
    ensures Find(f + [Fresh], x) == if x == |f| then x else Find(f, x)
    decreases if x < |f| then |Above(f, f[x].rank)| else 0
  {
    FreshKeepsValid(f);
    var g := f + [Fresh];
    if x < |f| {
      assert g[x] == f[x];
      match f[x].parent
      case None =>
      case Some(p) =>
        AboveShrinks(f, x, p);
        AppendFresh(f, p);
    }
  }

  /** Being in the same set is an equivalence relation over a fixed forest. */
  lemma ConnectedIsEquivalence(f: Forest, x: nat, y: nat, z: nat)
    requires Valid(f) && x < |f| && y < |f| && z < |f|
    ensures Connected(f, x, x)
    ensures Connected(f, x, y) ==> Connected(f, y, x)
    ensures Connected(f, x, y) && Connected(f, y, z) ==> Connected(f, x, z)
  {
  }
}
