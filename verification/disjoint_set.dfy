/** The connectivity tracker of the board: a disjoint-set forest over the
    cells, thrown away and rebuilt by `Update`, then queried by coordinate.
    The node map keyed by coordinate is kept as an array of nodes in creation
    order plus the number of nodes created: the node of cell (x, y) is
    `nodes[x * height + y]`, and a key is in the map when that position is
    below `count`. */
module Connectivity {
  import opened Wrappers
  import opened Grid
  import opened UnionFind
  import opened Rebuild

  class DisjointSet {
    /** The board whose cells the forest tracks, as of the last rebuild. */
    var board: Board
    /** The dimensions of the board when the map was last rebuilt. */
    var width: nat
    var height: nat
    /** The nodes; the first `count` of them are the values of the map. */
    var nodes: array<Node>
    var count: nat

    ghost predicate Valid()
      reads this, nodes
    {
      count <= nodes.Length && count <= width * height && UnionFind.Valid(nodes[..count])
    }

    /** The forest the map currently holds. */
    function Current(): Forest
      reads this, nodes
      requires count <= nodes.Length
    {
      nodes[..count]
    }

    /** The node index stored under key c, or None when c is not a key. */
    function Lookup(c: Coord): (r: Option<nat>)
      reads this
      ensures r.Some? ==> r.value < count
    {
      Slot(width, height, count, c)
    }

    /** A tracker over `board` whose map is still empty. */
    constructor (board: Board)
      ensures Valid() && this.board == board && count == 0
    {
      this.board := board;
      width, height := 0, 0;
      nodes := new Node[0];
      count := 0;
    }

    /** Discards the forest and builds a new one over the board as it is
        now, given as b: one node per cell, created in x-major order; each
        cell of non-zero weight is then united with every neighbour whose
        node already exists. */
    method Update(b: Board)
      modifies this
      ensures Valid() && fresh(nodes) && board == b
      ensures width == b.width && height == b.height && count == width * height
      ensures Current() == Built(b)
    {
      board := b;
      width, height := board.width, board.height;
      nodes := new Node[width * height](_ => Fresh);
      count := 0;
      for x := 0 to width
        invariant board == b && width == board.width && height == board.height
        invariant fresh(nodes) && nodes.Length == width * height
        invariant count == x * height
        invariant Valid() && Current() == Scanned(board, x, 0)
      {
        VisitColumn(x);
      }
    }

    /** The visits of the cells (x, 0) .. (x, height - 1), in that order. */
    method VisitColumn(x: nat)
      requires Valid() && width == board.width && height == board.height
      requires x < width && count == x * height && nodes.Length == width * height
      requires Current() == Scanned(board, x, 0)
      modifies this`count, nodes
      ensures count == (x + 1) * height && Valid()
      ensures Current() == Scanned(board, x + 1, 0)
    {
      for y := 0 to height
        invariant count == x * height + y
        invariant Valid() && Current() == Scanned(board, x, y)
      {
        Visit(x, y);
      }
      ColumnBoundary(board, x);
      assert x * height + height == (x + 1) * height;
    }

    /** One visit of the rebuilding scan: creates the node of cell (x, y)
        and, when the cell's weight is non-zero, joins it to its neighbours. */
    method Visit(x: nat, y: nat)
      requires Valid() && width == board.width && height == board.height
      requires x < width && y < height && count == x * height + y && nodes.Length == width * height
      modifies this`count, nodes
      ensures count == old(count) + 1 && Valid()
      ensures Current() == ScanCell(board, old(Current()), x, y)
    {
      IndexBelow(width, height, x, y);
      ghost var before := Current();
      nodes[count] := Fresh;
      count := count + 1;
      assert Current() == before + [Fresh];
      AppendFresh(before, |before|);
      var weight := board.weight(x, y);
      if weight != 0 {
        JoinAll(Surrounding(width, height, x, y), count - 1);
      }
    }

    /** Unites node n with the node of every coordinate of cs that is a key
        of the map, in order. */
    method JoinAll(cs: seq<Coord>, n: nat)
      requires Valid() && n < count
      modifies nodes
      ensures Valid() && Current() == JoinNeighbours(old(Current()), width, height, cs, n)
    {
      ghost var created := Current();
      for k := 0 to |cs|
        invariant Valid() && Current() == JoinNeighbours(created, width, height, cs[..k], n)
      {
        assert cs[..k + 1][..k] == cs[..k];
        match Lookup(cs[k])
        case Some(j) => Union(j, n);
        case None =>
      }
      assert cs[..|cs|] == cs;
    }

    /** Unites the sets of nodes node1 and node2 by rank, in place. */
    method Union(node1: nat, node2: nat)
      requires Valid() && node1 < count && node2 < count
      modifies nodes
      ensures Valid()
      ensures Current() == UnionFind.Union(old(Current()), node1, node2)
    {
      ghost var f := Current();
      var root1 := Find(Current(), node1);
      var rank1 := nodes[root1].rank;
      var root2 := Find(Current(), node2);
      var rank2 := nodes[root2].rank;
      if root1 == root2 {
        return;
      }
      if rank1 < rank2 {
        nodes[root1] := nodes[root1].(parent := Some(root2));
        nodes[root2] := nodes[root2].(directChildren := nodes[root2].directChildren + {root1});
        LinkedHere(f, root1, root2, false);
      } else if rank1 > rank2 {
        nodes[root2] := nodes[root2].(parent := Some(root1));
        nodes[root1] := nodes[root1].(directChildren := nodes[root1].directChildren + {root2});
        LinkedHere(f, root2, root1, false);
      } else {
        nodes[root1] := nodes[root1].(parent := Some(root2));
        nodes[root2] := nodes[root2].(rank := rank2 + 1);
        nodes[root2] := nodes[root2].(directChildren := nodes[root2].directChildren + {root1});
        LinkedHere(f, root1, root2, true);
      }
    }

    /** The node stored under key c, or None where the map has no such key
        (the lookup fails). Once the map is complete the keys are exactly the
        cells of the board. */
    function GetNode(c: Coord): (r: Option<Node>)
      reads this, nodes
      requires Valid()
      ensures r.Some? <==> Lookup(c).Some?
      ensures count == width * height ==> (r.Some? <==> InBounds(width, height, c))
      ensures r.Some? ==> c.0 * height + c.1 < count && r.value == Current()[c.0 * height + c.1]
    {
      SlotComplete(width, height, c);
      match Lookup(c)
      case Some(i) => Some(nodes[i])
      case None => None
    }

    /** Whether the cells c1 and c2 have the same root; None when either is
        not a key of the map. */
    function AreConnected(c1: Coord, c2: Coord): (r: Option<bool>)
      reads this, nodes
      requires Valid()
      ensures r.Some? <==> Lookup(c1).Some? && Lookup(c2).Some?
      ensures r.Some? ==> (r.value <==> Find(Current(), Lookup(c1).value) == Find(Current(), Lookup(c2).value))
    {
      match (Lookup(c1), Lookup(c2))
      case (Some(i), Some(j)) => Some(Find(Current(), i) == Find(Current(), j))
      case _ => None
    }

    /** Over the keys of the map, `AreConnected` is an equivalence:
        reflexive, symmetric and transitive. */
    lemma AreConnectedIsEquivalence(c1: Coord, c2: Coord, c3: Coord)
      requires Valid() && Lookup(c1).Some? && Lookup(c2).Some? && Lookup(c3).Some?
      ensures AreConnected(c1, c1) == Some(true)
      ensures AreConnected(c1, c2) == AreConnected(c2, c1)
      ensures AreConnected(c1, c2) == Some(true) && AreConnected(c2, c3) == Some(true) ==> AreConnected(c1, c3) == Some(true)
    {
      ConnectedIsEquivalence(Current(), Lookup(c1).value, Lookup(c2).value, Lookup(c3).value);
    }

    /** The cells one level down from the root of c's set, together with the
        root's own cell; None when c is not a key of the map. */
    function GetConnected(c: Coord): (r: Option<set<Coord>>)
      reads this, nodes
      requires Valid()
      ensures r.Some? <==> Lookup(c).Some?
      ensures r.Some? ==> height > 0 && forall j :: 0 <= j < count ==>
        (CellOf(height, j) in r.value <==>
           var root := Find(Current(), Lookup(c).value);
           j == root || nodes[j].parent == Some(root))
      ensures r.Some? ==> forall d :: d in r.value ==> AreConnected(c, d) == Some(true)
    {
      match Lookup(c)
      case Some(i) =>
        var root := Find(Current(), i);
        assert height > 0;
        var cells := (set ch | ch in nodes[root].directChildren :: CellOf(height, ch)) + {CellOf(height, root)};
        ChildCells(root, cells);
        Some(cells)
      case None => None
    }

    /** The cells of root's children and of root itself are keys whose nodes
        are root and the nodes whose parent is root, and no others. */
    lemma ChildCells(root: nat, cells: set<Coord>)
      requires Valid() && root < count && IsRoot(Current(), root) && height > 0
      requires cells == (set ch | ch in nodes[root].directChildren :: CellOf(height, ch)) + {CellOf(height, root)}
      ensures forall j :: 0 <= j < count ==> (CellOf(height, j) in cells <==> j == root || nodes[j].parent == Some(root))
      ensures forall d :: d in cells ==> exists j :: 0 <= j < count && Lookup(d) == Some(j) && Find(Current(), j) == root
    {
      var f := Current();
      forall j | 0 <= j < count
        ensures CellOf(height, j) in cells <==> j == root || nodes[j].parent == Some(root)
      {
        if CellOf(height, j) in cells {
          if CellOf(height, j) != CellOf(height, root) {
            var ch :| ch in nodes[root].directChildren && CellOf(height, ch) == CellOf(height, j);
            assert ch in f[root].directChildren;
            CellOfInjective(width, height, count, ch, j);
          } else {
            CellOfInjective(width, height, count, root, j);
          }
        }
        if j != root && nodes[j].parent == Some(root) {
          assert f[j].parent == Some(root);
          assert j in f[root].directChildren;
        }
      }
      forall d | d in cells
        ensures exists j :: 0 <= j < count && Lookup(d) == Some(j) && Find(Current(), j) == root
      {
        if d == CellOf(height, root) {
          CellOfSlot(width, height, count, root);
        } else {
          var ch :| ch in nodes[root].directChildren && d == CellOf(height, ch);
          assert ch in f[root].directChildren;
          CellOfSlot(width, height, count, ch);
          assert f[ch].parent == Some(root);
        }
      }
    }

    /** The cells of the whole set of c, at any depth below its root; None
        when c is not a key of the map. This is the query `getConnected`
        is meant to answer but answers only one level deep. */
    function GetComponent(c: Coord): (r: Option<set<Coord>>)
      reads this, nodes
      requires Valid()
      ensures r.Some? <==> Lookup(c).Some?
      ensures r.Some? ==> forall d :: d in r.value <==> AreConnected(c, d) == Some(true)
    {
      match Lookup(c)
      case Some(i) =>
        var root := Find(Current(), i);
        assert height > 0;
        var cells := set j | 0 <= j < count && Find(Current(), j) == root :: CellOf(height, j);
        ComponentCells(c, root, cells);
        Some(cells)
      case None => None
    }

    /** The cells of the nodes that find `root` are exactly the keys whose
        nodes are connected to c's. */
    lemma ComponentCells(c: Coord, root: nat, cells: set<Coord>)
      requires Valid() && height > 0 && Lookup(c).Some? && root == Find(Current(), Lookup(c).value)
      requires cells == set j | 0 <= j < count && Find(Current(), j) == root :: CellOf(height, j)
      ensures forall d :: d in cells <==> AreConnected(c, d) == Some(true)
    {
      forall d
        ensures d in cells <==> AreConnected(c, d) == Some(true)
      {
        if d in cells {
          var j :| 0 <= j < count && Find(Current(), j) == root && d == CellOf(height, j);
          CellOfSlot(width, height, count, j);
        }
        if AreConnected(c, d) == Some(true) {
          var k := Lookup(d).value;
          CellOfSlot(width, height, count, k);
          SlotInjective(width, height, count, d, CellOf(height, k));
        }
      }
    }

    /** On the 2 x 2 board whose column x = 0 has weight zero and whose
        column x = 1 does not, a rebuild connects (0, 0) with (1, 1), yet
        `getConnected` of (1, 1) leaves (0, 0) out, because (0, 0) sits two
        levels below the root; the whole set does hold it. */
    lemma GetConnectedMissesGrandchild()
      requires Valid() && width == board.width && height == board.height
      requires Current() == Built(board) && SplitSquare(board)
      ensures AreConnected((0, 0), (1, 1)) == Some(true)
      ensures GetConnected((1, 1)).Some? && (0, 0) !in GetConnected((1, 1)).value
      ensures GetComponent((1, 1)).Some? && (0, 0) in GetComponent((1, 1)).value
    {
      TwoLevelTree(board);
      var f := Current();
      TwoLevelFinds(f);
      assert Lookup((0, 0)) == Some(0);
      assert Lookup((1, 1)) == Some(3);
      assert AreConnected((0, 0), (1, 1)) == Some(true);
      assert nodes[0].parent == f[0].parent == Some(2);
      assert CellOf(height, 0) == (0, 0);
      assert (0, 0) !in GetConnected((1, 1)).value;
    }

    /** After a rebuild, a cell of non-zero weight is connected to its left
        and upper neighbours, whatever their weights. */
    lemma OpenCellJoinsEarlierNeighbours(x: nat, y: nat)
      requires Valid() && width == board.width && height == board.height
      requires Current() == Built(board)
      requires x < width && y < height && board.weight(x, y) != 0
      ensures x > 0 ==> AreConnected((x, y), (x - 1, y)) == Some(true)
      ensures y > 0 ==> AreConnected((x, y), (x, y - 1)) == Some(true)
    {
      NonZeroJoinsEarlierNeighbours(board, x, y);
      var f := Current();
      assert count == width * height;
      var i := NodeOf(board, x, y);
      assert Lookup((x, y)) == Some(i);
      if x > 0 {
        var j := NodeOf(board, x - 1, y);
        assert Lookup((x - 1, y)) == Some(j);
        assert Connected(f, i, j);
      }
      if y > 0 {
        var j := NodeOf(board, x, y - 1);
        assert Lookup((x, y - 1)) == Some(j);
        assert Connected(f, i, j);
      }
    }

    /** After a rebuild of a board whose every cell has non-zero weight, any
        two cells of the board are connected. */
    lemma OpenBoardConnected()
      requires Valid() && width == board.width && height == board.height
      requires Current() == Built(board) && AllOpen(board)
      ensures forall c1, c2 :: InBounds(width, height, c1) && InBounds(width, height, c2) ==>
        AreConnected(c1, c2) == Some(true)
      ensures forall c, d :: InBounds(width, height, c) ==>
        GetComponent(c).Some? && (d in GetComponent(c).value <==> InBounds(width, height, d))
    {
      AllOpenConnected(board);
      ScannedSize(board, width, 0);
      forall c1, c2 | InBounds(width, height, c1) && InBounds(width, height, c2)
        ensures AreConnected(c1, c2) == Some(true)
      {
        SlotComplete(width, height, c1);
        SlotComplete(width, height, c2);
        var i, j := Lookup(c1).value, Lookup(c2).value;
        assert Connected(Built(board), i, j);
      }
      forall c, d | InBounds(width, height, c)
        ensures GetComponent(c).Some? && (d in GetComponent(c).value <==> InBounds(width, height, d))
      {
        SlotComplete(width, height, c);
        SlotComplete(width, height, d);
      }
    }

    /** After a rebuild of a board whose every cell has weight zero, each
        cell's connected cells are the cell alone. */
    lemma BlockedBoardSingletons()
      requires Valid() && width == board.width && height == board.height
      requires Current() == Built(board) && AllBlocked(board)
      ensures forall c :: InBounds(width, height, c) ==> GetConnected(c) == Some({c})
      ensures forall c :: InBounds(width, height, c) ==> GetComponent(c) == Some({c})
    {
      AllBlockedSingletons(board);
      ScannedSize(board, width, 0);
      forall c | InBounds(width, height, c)
        ensures GetConnected(c) == Some({c}) && GetComponent(c) == Some({c})
      {
        AloneAmongFresh(c);
      }
    }

    /** When every node is a fresh root, the one cell of c's set is c. */
    lemma AloneAmongFresh(c: Coord)
      requires Valid() && count == width * height && InBounds(width, height, c)
      requires forall j :: 0 <= j < count ==> Current()[j] == Fresh && Find(Current(), j) == j
      ensures GetConnected(c) == Some({c}) && GetComponent(c) == Some({c})
    {
      SlotComplete(width, height, c);
      var i := Lookup(c).value;
      var f := Current();
      CellOfSlot(width, height, count, i);
      SlotInjective(width, height, count, c, CellOf(height, i));
      var cells := GetConnected(c).value;
      forall d | d in cells
        ensures d == c
      {
        var k := Lookup(d).value;
        CellOfSlot(width, height, count, k);
        SlotInjective(width, height, count, d, CellOf(height, k));
        assert f[k] == Fresh;
      }
      assert cells == {c};
      var whole := GetComponent(c).value;
      forall d | d in whole
        ensures d == c
      {
        var k := Lookup(d).value;
        assert Find(f, k) == k;
        SlotInjective(width, height, count, c, d);
      }
      assert whole == {c};
    }

    /** The nodes now hold forest f with `child` linked under `root`, given
        node by node. */
    lemma LinkedHere(f: Forest, child: nat, root: nat, bump: bool)
      requires CanLink(f, child, root, bump) && count == |f| <= nodes.Length
      requires nodes[child] == f[child].(parent := Some(root))
      requires nodes[root] == f[root].(directChildren := f[root].directChildren + {child},
                                       rank := if bump then f[root].rank + 1 else f[root].rank)
      requires forall i :: 0 <= i < |f| && i != child && i != root ==> nodes[i] == f[i]
      ensures Current() == Link(f, child, root, bump)
    {
      var g := Link(f, child, root, bump);
      assert forall i :: 0 <= i < |f| ==> Current()[i] == g[i];
    }
  }
}
