/** What a rebuild computes, as functions over forest values: the cells are
    visited in x-major order; each visit creates the cell's node and, when the
    cell's weight is not 0, unions it with every neighbour whose node is
    already in the map. */
module Rebuild {
  import opened Wrappers
  import opened Grid
  import opened UnionFind

  /** Unions node n with the node of every cell of cs that is in the map (the
      map being the nodes of f over a w-by-h board), in the order of cs. */
  function JoinNeighbours(f: Forest, w: nat, h: nat, cs: seq<Coord>, n: nat): (g: Forest)
    requires Valid(f) && n < |f|
    ensures Valid(g) && |g| == |f|
    decreases |cs|
  {
    if cs == [] then f
    else
      var g := JoinNeighbours(f, w, h, cs[..|cs| - 1], n);
      match Slot(w, h, |g|, cs[|cs| - 1])
      case Some(j) => Union(g, j, n)
      case None => g
  }

  /** The visit of cell (x, y) on top of forest f. */
  function ScanCell(b: Board, f: Forest, x: int, y: int): (g: Forest)
    requires Valid(f)
    ensures Valid(g) && |g| == |f| + 1
  {
    AppendFresh(f, |f|);
    var created := f + [Fresh];
    if b.weight(x, y) != 0 then
      JoinNeighbours(created, b.width, b.height, Surrounding(b.width, b.height, x, y), |f|)
    else
      created
  }

  /** The forest once every cell of the columns before x and the cells
      (x, 0) .. (x, y - 1) have been visited. */
  function Scanned(b: Board, x: nat, y: nat): (f: Forest)
    requires y <= b.height
    ensures Valid(f)
    decreases x, y
  {
    if y == 0 then
      if x == 0 then [] else Scanned(b, x - 1, b.height)
    else
      ScanCell(b, Scanned(b, x, y - 1), x, y - 1)
  }

  /** The forest a rebuild leaves: every cell of the board visited. */
  function Built(b: Board): (f: Forest)
    ensures Valid(f) && |f| == b.width * b.height
  {
    ScannedSize(b, b.width, 0);
    Scanned(b, b.width, 0)
  }

  /** One node per visited cell. */
  lemma {:induction false} ScannedSize(b: Board, x: nat, y: nat)
    requires y <= b.height
    ensures |Scanned(b, x, y)| == x * b.height + y
    decreases x, y
  {
    if y > 0 {
      ScannedSize(b, x, y - 1);
    } else if x > 0 {
      ScannedSize(b, x - 1, b.height);
      assert (x - 1) * b.height + b.height == x * b.height;
    }
  }

  /** Joining neighbours never separates two nodes. */
  lemma {:induction false} JoinKeeps(f: Forest, w: nat, h: nat, cs: seq<Coord>, n: nat, i: nat, j: nat)
    requires Valid(f) && n < |f| && i < |f| && j < |f| && Connected(f, i, j)
    ensures Connected(JoinNeighbours(f, w, h, cs, n), i, j)
    decreases |cs|
  {
    if cs != [] {
      var g := JoinNeighbours(f, w, h, cs[..|cs| - 1], n);
      JoinKeeps(f, w, h, cs[..|cs| - 1], n, i, j);
      match Slot(w, h, |g|, cs[|cs| - 1])
      case Some(k) => UnionKeeps(g, k, n, i, j);
      case None =>
    }
  }

  /** After joining, n is in the set of every listed cell that is in the map. */
  lemma {:induction false} JoinConnects(f: Forest, w: nat, h: nat, cs: seq<Coord>, n: nat, c: Coord)
    requires Valid(f) && n < |f| && c in cs && Slot(w, h, |f|, c).Some?
    ensures Slot(w, h, |f|, c).value < |f|
    ensures Connected(JoinNeighbours(f, w, h, cs, n), Slot(w, h, |f|, c).value, n)
    decreases |cs|
  {
    var k := Slot(w, h, |f|, c).value;
    var g := JoinNeighbours(f, w, h, cs[..|cs| - 1], n);
    if c == cs[|cs| - 1] {
      UnionLinksRoots(g, k, n);
    } else {
      assert c in cs[..|cs| - 1];
      JoinConnects(f, w, h, cs[..|cs| - 1], n, c);
      match Slot(w, h, |g|, cs[|cs| - 1])
      case Some(m) => UnionKeeps(g, m, n, k, n);
      case None =>
    }
  }

  /** Visiting a cell never separates two older nodes. */
  lemma ScanCellKeeps(b: Board, f: Forest, x: int, y: int, i: nat, j: nat)
    requires Valid(f) && i < |f| && j < |f| && Connected(f, i, j)
    ensures Connected(ScanCell(b, f, x, y), i, j)
  {
    AppendFresh(f, i);
    AppendFresh(f, j);
    if b.weight(x, y) != 0 {
      JoinKeeps(f + [Fresh], b.width, b.height, Surrounding(b.width, b.height, x, y), |f|, i, j);
    }
  }

  /** Every two nodes of f that are connected are connected in g too. */
  ghost predicate Keeps(f: Forest, g: Forest) {
    && Valid(f) && Valid(g) && |f| <= |g|
    && forall i, j :: 0 <= i < |f| && 0 <= j < |f| && Connected(f, i, j) ==> Connected(g, i, j)
  }

  lemma KeepsTransitive(f: Forest, g: Forest, h: Forest)
    requires Keeps(f, g) && Keeps(g, h)
    ensures Keeps(f, h)
  {
  }

  /** Visiting the next cell of a column never separates two nodes. */
  lemma NextCellKeeps(b: Board, x: nat, y: nat)
    requires y < b.height
    ensures Keeps(Scanned(b, x, y), Scanned(b, x, y + 1))
  {
    var f := Scanned(b, x, y);
    forall i, j | 0 <= i < |f| && 0 <= j < |f| && Connected(f, i, j)
      ensures Connected(Scanned(b, x, y + 1), i, j)
    {
      ScanCellKeeps(b, f, x, y, i, j);
    }
  }

  /** The forest after a whole column is the forest before the next one. */
  lemma ColumnBoundary(b: Board, x: nat)
    ensures Scanned(b, x + 1, 0) == Scanned(b, x, b.height)
  {
  }

  /** Scanning further down a column never separates two nodes. */
  lemma {:induction false} ColumnKeeps(b: Board, x: nat, y: nat, y2: nat)
    requires y <= y2 <= b.height
    ensures Keeps(Scanned(b, x, y), Scanned(b, x, y2))
    decreases y2 - y
  {
    if y != y2 {
      NextCellKeeps(b, x, y);
      ColumnKeeps(b, x, y + 1, y2);
      KeepsTransitive(Scanned(b, x, y), Scanned(b, x, y + 1), Scanned(b, x, y2));
    }
  }

  /** Scanning on to the start of a later column never separates two nodes. */
  lemma {:induction false} ScanKeeps(b: Board, x: nat, y: nat, x2: nat)
    requires y <= b.height && x < x2
    ensures Keeps(Scanned(b, x, y), Scanned(b, x2, 0))
    decreases x2 - x
  {
    ColumnKeeps(b, x, y, b.height);
    ColumnBoundary(b, x);
    if x + 1 != x2 {
      ScanKeeps(b, x + 1, 0, x2);
      KeepsTransitive(Scanned(b, x, y), Scanned(b, x + 1, 0), Scanned(b, x2, 0));
    }
  }

  /** The node of in-bounds cell (x, y) in the finished forest. */
  function NodeOf(b: Board, x: nat, y: nat): (i: nat)
    requires x < b.width && y < b.height
    ensures i < b.width * b.height
  {
    IndexBelow(b.width, b.height, x, y);
    x * b.height + y
  }

  /** The visit of a cell of non-zero weight puts it in the set of each of
      its neighbours already in the map. */
  lemma VisitJoins(b: Board, x: nat, y: nat, c: Coord)
    requires y < b.height && b.weight(x, y) != 0
    requires c in Surrounding(b.width, b.height, x, y)
    requires Slot(b.width, b.height, |Scanned(b, x, y)| + 1, c).Some?
    ensures var k, n := Slot(b.width, b.height, |Scanned(b, x, y)| + 1, c).value, |Scanned(b, x, y)|;
      k < |Scanned(b, x, y + 1)| && n < |Scanned(b, x, y + 1)| && Connected(Scanned(b, x, y + 1), k, n)
  {
    var f := Scanned(b, x, y);
    AppendFresh(f, |f|);
    JoinConnects(f + [Fresh], b.width, b.height, Surrounding(b.width, b.height, x, y), |f|, c);
  }

  /** The in-map neighbour c of a non-zero cell ends in its set once the
      whole board is scanned. */
  lemma NeighbourJoined(b: Board, x: nat, y: nat, c: Coord)
    requires x < b.width && y < b.height && b.weight(x, y) != 0
    requires c in Surrounding(b.width, b.height, x, y)
    requires Slot(b.width, b.height, x * b.height + y + 1, c).Some?
    ensures var k := Slot(b.width, b.height, x * b.height + y + 1, c).value;
      k < |Built(b)| && x * b.height + y < |Built(b)| && Connected(Built(b), k, x * b.height + y)
  {
    ScannedSize(b, x, y);
    var k := Slot(b.width, b.height, x * b.height + y + 1, c).value;
    VisitJoins(b, x, y, c);
    ScanKeeps(b, x, y + 1, b.width);
  }

  /** A cell of non-zero weight ends up in the same set as its left neighbour
      (x - 1, y) and its upper neighbour (x, y - 1), whatever their weights,
      since both are in the map when the cell is visited. */
  lemma NonZeroJoinsEarlierNeighbours(b: Board, x: nat, y: nat)
    requires x < b.width && y < b.height && b.weight(x, y) != 0
    ensures x > 0 ==> Connected(Built(b), NodeOf(b, x, y), NodeOf(b, x - 1, y))
    ensures y > 0 ==> Connected(Built(b), NodeOf(b, x, y), NodeOf(b, x, y - 1))
  {
    var h := b.height;
    if x > 0 {
      var c := (x - 1, y);
      assert c in Surrounding(b.width, h, x, y);
      assert (x - 1) * h + y < x * h + y + 1 by {
        assert (x - 1) * h == x * h - h;
      }
      assert Slot(b.width, h, x * h + y + 1, c) == Some(NodeOf(b, x - 1, y));
      NeighbourJoined(b, x, y, c);
    }
    if y > 0 {
      var c := (x, y - 1);
      assert c in Surrounding(b.width, h, x, y);
      assert Slot(b.width, h, x * h + y + 1, c) == Some(NodeOf(b, x, y - 1));
      NeighbourJoined(b, x, y, c);
    }
  }

  /** The first join of the visit of a cell (x, y) of non-zero weight over
      the forest f of the cells scanned before it: the new node is created
      and united with the node of the left neighbour, which sits one column,
      that is h nodes, earlier, when x > 0. */
  function LeftJoined(f: Forest, h: nat, x: nat, y: nat): (g: Forest)
    requires Valid(f) && y < h && |f| == x * h + y
    ensures Valid(g) && |g| == |f| + 1
  {
    FreshKeepsValid(f);
    var n := |f|;
    assert x > 0 ==> n >= h by {
      if x > 0 {
        MulMonotone(1, x, h);
      }
    }
    if x > 0 then Union(f + [Fresh], n - h, n) else f + [Fresh]
  }

  /** The whole visit of such a cell: after the join with the left
      neighbour, the new node is united with the node of the upper
      neighbour, the one created just before it, when y > 0. */
  function EarlierJoins(f: Forest, h: nat, x: nat, y: nat): (g: Forest)
    requires Valid(f) && y < h && |f| == x * h + y
    ensures Valid(g) && |g| == |f| + 1
  {
    var left := LeftJoined(f, h, x, y);
    if y > 0 then Union(left, |f| - 1, |f|) else left
  }

  /** Listed coordinates that are not keys of the map add no union, wherever
      they sit in the list. */
  lemma {:induction false} JoinSkipsAbsent(f: Forest, w: nat, h: nat, cs: seq<Coord>, ds: seq<Coord>, es: seq<Coord>, n: nat)
    requires Valid(f) && n < |f|
    requires forall d :: d in ds ==> Slot(w, h, |f|, d) == None
    ensures JoinNeighbours(f, w, h, cs + ds + es, n) == JoinNeighbours(f, w, h, cs + es, n)
    decreases |es|, |ds|
  {
    if es != [] {
      var k := |es| - 1;
      assert (cs + ds + es)[..|cs + ds + es| - 1] == cs + ds + es[..k];
      assert (cs + es)[..|cs + es| - 1] == cs + es[..k];
      assert (cs + ds + es)[|cs + ds + es| - 1] == es[k] == (cs + es)[|cs + es| - 1];
      JoinSkipsAbsent(f, w, h, cs, ds, es[..k], n);
    } else if ds != [] {
      var k := |ds| - 1;
      assert (cs + ds + es)[..|cs + ds + es| - 1] == cs + ds[..k] + es;
      assert (cs + ds + es)[|cs + ds + es| - 1] == ds[k];
      JoinSkipsAbsent(f, w, h, cs, ds[..k], es, n);
    } else {
      assert cs + ds + es == cs + es;
    }
  }

  /** A listed coordinate that is a key adds one union with its node. */
  lemma JoinLast(f: Forest, w: nat, h: nat, cs: seq<Coord>, c: Coord, n: nat, j: nat)
    requires Valid(f) && n < |f| && Slot(w, h, |f|, c) == Some(j)
    ensures JoinNeighbours(f, w, h, cs + [c], n) == Union(JoinNeighbours(f, w, h, cs, n), j, n)
  {
    assert (cs + [c])[..|cs|] == cs;
  }

  /** The neighbours of (x, y) that come before it in the scan: the left one,
      then the upper one, each when it is on the board. */
  function EarlierNeighbours(x: int, y: int): (cs: seq<Coord>)
    ensures forall c :: c in cs ==> c == (x - 1, y) || c == (x, y - 1)
  {
    (if x - 1 >= 0 then [(x - 1, y)] else []) + (if y - 1 >= 0 then [(x, y - 1)] else [])
  }

  /** The edge rule of a visit: for a cell of non-zero weight, the neighbour
      joins over the whole neighbour list are the joins over its earlier
      neighbours alone; the right and lower neighbours are not yet in the
      map. */
  lemma OpenVisitJoinsEarlier(f: Forest, w: nat, h: nat, x: nat, y: nat)
    requires Valid(f) && x < w && y < h && |f| == x * h + y
    ensures Valid(f + [Fresh])
      && JoinNeighbours(f + [Fresh], w, h, Surrounding(w, h, x, y), |f|)
         == JoinNeighbours(f + [Fresh], w, h, EarlierNeighbours(x, y), |f|)
  {
    FreshKeepsValid(f);
    var created, n := f + [Fresh], |f|;
    var ls: seq<Coord> := if x - 1 >= 0 then [(x - 1, y)] else [];
    var rs: seq<Coord> := if x + 1 < w then [(x + 1, y)] else [];
    var ds: seq<Coord> := if y + 1 < h then [(x, y + 1)] else [];
    var us: seq<Coord> := if y - 1 >= 0 then [(x, y - 1)] else [];
    assert Surrounding(w, h, x, y) == ls + (rs + ds) + us;
    assert EarlierNeighbours(x, y) == ls + us;
    forall d | d in rs + ds
      ensures Slot(w, h, n + 1, d) == None
    {
      OnlyEarlierInMap(w, h, x, y, d);
    }
    JoinSkipsAbsent(created, w, h, ls, rs + ds, us, n);
  }

  /** The join with the left neighbour: the union with the node h positions
      back, when there is a left neighbour. */
  lemma LeftJoin(f: Forest, w: nat, h: nat, x: nat, y: nat)
    requires Valid(f) && x < w && y < h && |f| == x * h + y
    ensures Valid(f + [Fresh])
      && JoinNeighbours(f + [Fresh], w, h, if x > 0 then [(x - 1, y)] else [], |f|) == LeftJoined(f, h, x, y)
  {
    FreshKeepsValid(f);
    if x > 0 {
      LeftSlot(w, h, x, y);
      assert [(x - 1, y)] == [] + [(x - 1, y)];
      JoinLast(f + [Fresh], w, h, [], (x - 1, y), |f|, |f| - h);
      assert LeftJoined(f, h, x, y) == Union(f + [Fresh], |f| - h, |f|);
    } else {
      assert LeftJoined(f, h, x, y) == f + [Fresh];
    }
  }

  /** Over the earlier neighbours, the joins are the union with the left
      neighbour's node, then the union with the upper neighbour's node. */
  lemma EarlierJoinsUnions(f: Forest, w: nat, h: nat, x: nat, y: nat)
    requires Valid(f) && x < w && y < h && |f| == x * h + y
    ensures Valid(f + [Fresh])
      && JoinNeighbours(f + [Fresh], w, h, EarlierNeighbours(x, y), |f|) == EarlierJoins(f, h, x, y)
  {
    var created, n := f + [Fresh], |f|;
    var ls: seq<Coord> := if x > 0 then [(x - 1, y)] else [];
    LeftJoin(f, w, h, x, y);
    var left := JoinNeighbours(created, w, h, ls, n);
    if y > 0 {
      assert Slot(w, h, n + 1, (x, y - 1)) == Some(n - 1);
      JoinLast(created, w, h, ls, (x, y - 1), n, n - 1);
      assert EarlierNeighbours(x, y) == ls + [(x, y - 1)];
    } else {
      assert EarlierNeighbours(x, y) == ls;
    }
  }

  /** Lifted to the scan: visiting a non-zero cell turns the forest scanned
      so far into its EarlierJoins. */
  lemma OpenVisitIsEarlierJoins(b: Board, x: nat, y: nat)
    requires x < b.width && y < b.height && b.weight(x, y) != 0
    ensures |Scanned(b, x, y)| == x * b.height + y
      && Scanned(b, x, y + 1) == EarlierJoins(Scanned(b, x, y), b.height, x, y)
  {
    ScannedSize(b, x, y);
    OpenVisitJoinsEarlier(Scanned(b, x, y), b.width, b.height, x, y);
    EarlierJoinsUnions(Scanned(b, x, y), b.width, b.height, x, y);
  }

  /** Edges are added only towards cells already in the map, so a cell of
      non-zero weight stays apart from a later neighbour of weight zero: on
      the one-column board whose upper cell has weight 1 and lower cell
      weight 0, the two cells end in different sets. */
  lemma OpenCellMissesLaterWall()
    ensures var b := Board(1, 2, (x, y) => if y == 0 then 1 else 0);
      |Built(b)| == 2 && !Connected(Built(b), 0, 1)
  {
    var b := Board(1, 2, (x, y) => if y == 0 then 1 else 0);
    assert Scanned(b, 0, 1) == [Fresh] by {
      assert Surrounding(1, 2, 0, 0) == [(0, 1)];
      assert Slot(1, 2, 1, (0, 1)) == None;
    }
    assert Scanned(b, 0, 2) == [Fresh, Fresh];
    assert Built(b) == Scanned(b, 1, 0) == [Fresh, Fresh];
  }

  /** The 2 x 2 board whose column x = 0 has weight zero and whose column
      x = 1 does not. */
  ghost predicate SplitSquare(b: Board) {
    && b.width == 2 && b.height == 2
    && b.weight(0, 0) == 0 && b.weight(0, 1) == 0 && b.weight(1, 0) != 0 && b.weight(1, 1) != 0
  }

  /** On that board, the visit of (1, 0) hangs node 0 under node 2. */
  lemma SplitSquareThirdVisit(b: Board)
    requires SplitSquare(b)
    ensures Scanned(b, 1, 1) == [Node(Some(2), {}, 0), Fresh, Node(None, {0}, 1)]
  {
    var f2 := Scanned(b, 0, 2);
    assert f2 == [Fresh, Fresh];
    assert Scanned(b, 1, 0) == f2;
    var c3 := f2 + [Fresh];
    AppendFresh(f2, |f2|);
    var s3 := Surrounding(2, 2, 1, 0);
    assert s3 == [(0, 0), (1, 1)];
    assert s3[..1] == [(0, 0)] && s3[..1][..0] == [];
    assert Find(c3, 0) == 0 && Find(c3, 2) == 2;
    var l := Link(c3, 0, 2, true);
    assert Union(c3, 0, 2) == l;
    assert JoinNeighbours(c3, 2, 2, s3[..1], 2) == l by {
      assert Slot(2, 2, 3, (0, 0)) == Some(0);
    }
    assert Slot(2, 2, 3, (1, 1)) == None;
    assert Scanned(b, 1, 1) == JoinNeighbours(c3, 2, 2, s3, 2) == l;
    assert l[0] == Node(Some(2), {}, 0) && l[1] == Fresh && l[2] == Node(None, {0}, 1);
  }

  /** The joins of the visit of (1, 1) on that board: node 1 goes under
      node 3 and then, on a tie of ranks, node 2 under node 3. */
  lemma SplitSquareLastJoins(f3: Forest)
    requires f3 == [Node(Some(2), {}, 0), Fresh, Node(None, {0}, 1)]
    ensures Valid(f3 + [Fresh])
    ensures var f := JoinNeighbours(f3 + [Fresh], 2, 2, [(0, 1), (1, 0)], 3);
      f[0].parent == Some(2) && f[2].parent == Some(3) && f[3].parent == None
  {
    var created := f3 + [Fresh];
    assert Valid(f3);
    FreshKeepsValid(f3);
    var s4: seq<Coord> := [(0, 1), (1, 0)];
    assert s4[..1] == [(0, 1)] && s4[..1][..0] == [];
    assert Find(created, 1) == 1 && Find(created, 3) == 3;
    var g := Link(created, 1, 3, true);
    assert JoinNeighbours(created, 2, 2, s4[..1], 3) == g by {
      assert Slot(2, 2, 4, (0, 1)) == Some(1);
    }
    assert g[0] == created[0] && g[2] == created[2] && g[3].rank == 1;
    assert Find(g, 2) == 2 && Find(g, 3) == 3;
    var last := Link(g, 2, 3, true);
    assert Union(g, 2, 3) == last;
    assert JoinNeighbours(created, 2, 2, s4, 3) == last by {
      assert Slot(2, 2, 4, (1, 0)) == Some(2);
    }
  }

  /** On that board, the visit of (1, 1) is those joins. */
  lemma SplitSquareLastVisit(b: Board, f3: Forest)
    requires SplitSquare(b) && Valid(f3) && |f3| == 3
    ensures ScanCell(b, f3, 1, 1) == JoinNeighbours(f3 + [Fresh], 2, 2, [(0, 1), (1, 0)], 3)
  {
    assert Surrounding(2, 2, 1, 1) == [(0, 1), (1, 0)];
  }

  /** On that board the rebuild leaves a tree of height two: node 0 under
      node 2 under the root 3. */
  lemma TwoLevelTree(b: Board)
    requires SplitSquare(b)
    ensures var f := Built(b);
      |f| == 4 && f[0].parent == Some(2) && f[2].parent == Some(3) && f[3].parent == None
  {
    SplitSquareThirdVisit(b);
    var f3 := Scanned(b, 1, 1);
    SplitSquareLastJoins(f3);
    SplitSquareLastVisit(b, f3);
    assert Scanned(b, 1, 2) == ScanCell(b, f3, 1, 1);
    ColumnBoundary(b, 1);
  }

  /** In such a tree both node 0 and the root 3 find the root 3. */
  lemma TwoLevelFinds(f: Forest)
    requires Valid(f) && |f| == 4 && f[0].parent == Some(2) && f[2].parent == Some(3) && f[3].parent == None
    ensures Find(f, 0) == 3 && Find(f, 3) == 3
  {
    assert Find(f, 2) == 3;
  }

  /** Every cell of the board has weight 0. */
  ghost predicate AllBlocked(b: Board) {
    forall x, y :: 0 <= x < b.width && 0 <= y < b.height ==> b.weight(x, y) == 0
  }

  /** Every cell of the board has a non-zero weight. */
  ghost predicate AllOpen(b: Board) {
    forall x, y :: 0 <= x < b.width && 0 <= y < b.height ==> b.weight(x, y) != 0
  }

  lemma {:induction false} BlockedScanIsFresh(b: Board, x: nat, y: nat)
    requires AllBlocked(b) && x <= b.width && y <= b.height && (y > 0 ==> x < b.width)
    ensures forall j :: 0 <= j < |Scanned(b, x, y)| ==> Scanned(b, x, y)[j] == Fresh
    decreases x, y
  {
    if y > 0 {
      BlockedScanIsFresh(b, x, y - 1);
      assert b.weight(x, y - 1) == 0;
    } else if x > 0 {
      BlockedScanIsFresh(b, x - 1, b.height);
    }
  }

  /** On an all-blocked board no union ever happens: every node keeps the
      state it was created with and is the root of its own set. */
  lemma AllBlockedSingletons(b: Board)
    requires AllBlocked(b)
    ensures forall j :: 0 <= j < |Built(b)| ==> Built(b)[j] == Fresh && Find(Built(b), j) == j
  {
    BlockedScanIsFresh(b, b.width, 0);
  }

  /** Every node of f is in the set of node 0. */
  ghost predicate OneSet(f: Forest) {
    Valid(f) && forall i :: 0 <= i < |f| ==> Connected(f, i, 0)
  }

  /** The in-map neighbour through which the visit of cell (x, y) of an
      all-open board reaches the cells visited before it. */
  lemma EarlierNeighbour(b: Board, x: nat, y: nat) returns (c: Coord, k: nat)
    requires x < b.width && y < b.height && 0 < x * b.height + y
    ensures c in Surrounding(b.width, b.height, x, y)
    ensures Slot(b.width, b.height, x * b.height + y + 1, c) == Some(k) && k < x * b.height + y
  {
    var h := b.height;
    if y > 0 {
      c, k := (x, y - 1), x * h + y - 1;
    } else {
      assert x > 0;
      c, k := (x - 1, 0), (x - 1) * h;
      assert (x - 1) * h == x * h - h;
    }
  }

  /** On an all-open board, the node created by the visit of a cell other
      than the first joins the set of node 0. */
  lemma OpenVisitJoinsNew(b: Board, x: nat, y: nat)
    requires AllOpen(b) && x < b.width && y < b.height && 0 < |Scanned(b, x, y)|
    requires OneSet(Scanned(b, x, y))
    ensures |Scanned(b, x, y)| < |Scanned(b, x, y + 1)|
    ensures Connected(Scanned(b, x, y + 1), |Scanned(b, x, y)|, 0)
  {
    ScannedSize(b, x, y);
    var c, k := EarlierNeighbour(b, x, y);
    VisitJoins(b, x, y, c);
    NextCellKeeps(b, x, y);
    assert Connected(Scanned(b, x, y), k, 0);
  }

  /** On an all-open board, visiting cell (x, y) keeps every node in the set
      of node 0, the new node included. */
  lemma OpenVisitConnected(b: Board, x: nat, y: nat)
    requires AllOpen(b) && x < b.width && y < b.height
    requires OneSet(Scanned(b, x, y))
    ensures OneSet(Scanned(b, x, y + 1))
  {
    var f, g := Scanned(b, x, y), Scanned(b, x, y + 1);
    var n := |f|;
    assert |g| == n + 1;
    if n > 0 {
      OpenVisitJoinsNew(b, x, y);
    }
    NextCellKeeps(b, x, y);
    forall i | 0 <= i < |g|
      ensures Connected(g, i, 0)
    {
      if i < n {
        assert Connected(f, i, 0);
      } else if n > 0 {
        assert i == n;
      } else {
        assert i == 0;
      }
    }
  }

  /** On an all-open board, once the cells visited so far form one set,
      they still do at the end of the column. */
  lemma {:induction false} OpenColumnConnected(b: Board, x: nat, y: nat)
    requires AllOpen(b) && x < b.width && y <= b.height
    requires OneSet(Scanned(b, x, y))
    ensures OneSet(Scanned(b, x, b.height))
    decreases b.height - y
  {
    if y != b.height {
      OpenVisitConnected(b, x, y);
      OpenColumnConnected(b, x, y + 1);
    }
  }

  /** On an all-open board, once the columns before x form one set, the
      whole board does. */
  lemma {:induction false} OpenScanConnected(b: Board, x: nat)
    requires AllOpen(b) && x <= b.width
    requires OneSet(Scanned(b, x, 0))
    ensures OneSet(Scanned(b, b.width, 0))
    decreases b.width - x
  {
    if x != b.width {
      OpenColumnConnected(b, x, 0);
      ColumnBoundary(b, x);
      assert OneSet(Scanned(b, x + 1, 0));
      OpenScanConnected(b, x + 1);
    }
  }

  /** On a board without a blocked cell every pair of cells is connected. */
  lemma AllOpenConnected(b: Board)
    requires AllOpen(b)
    ensures forall i, j :: 0 <= i < |Built(b)| && 0 <= j < |Built(b)| ==> Connected(Built(b), i, j)
  {
    assert Scanned(b, 0, 0) == [];
    OpenScanConnected(b, 0);
    var f := Built(b);
    forall i, j | 0 <= i < |f| && 0 <= j < |f|
      ensures Connected(f, i, j)
    {
      assert Connected(f, i, 0) && Connected(f, j, 0);
    }
  }
}
