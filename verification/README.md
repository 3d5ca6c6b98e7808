# Board connectivity tracker, modelled in Dafny

A snake-game player answers reachability questions about the board: "is this
cell in the same region as that one?" or "which cells are joined to this one?".
`app/util/DisjointSet.py` answers them with a disjoint-set (union-find) forest.
The forest holds one node per board cell. `update` discards it and rebuilds it
every turn. A cell of non-zero weight is traversable. When `update` visits such
a cell, it unites the cell's node with every neighbour whose node is already in
the coordinate map. Nodes are united by rank, and `find` walks parent links to
the root without path compression. The queries `areConnected`, `getConnected`
and `getNode` look cells up by coordinate.

The project has five modules, one file each:

- `Wrappers` (`wrappers.dfy`): an `Option` type. A failed map lookup, which
  raises `KeyError` in the source, is `None` here.
- `Grid` (`grid.dfy`): the board and the cell-to-node numbering. The board is
  its width, height and weight function. Cell (x, y) is created as node
  `x * height + y`, and `Slot` says whether a coordinate is a key of a map that
  holds `size` nodes so far. `Surrounding` is the neighbour list `update`
  builds.
- `UnionFind` (`union_find.dfy`): the forest as a value, a sequence of `Node`s
  that each have a parent, a set of direct children and a rank. It defines the
  structural invariant `Valid`, the functions `Find` and `Union`, and the
  lemmas about them.
- `Rebuild` (`rebuild.dfy`): what a rebuild computes, as functions over forest
  values. The scan is `Scanned`, the finished forest is `Built`. It also holds
  the connectivity lemmas about a finished rebuild.
- `Connectivity` (`disjoint_set.dfy`): the class `DisjointSet`. It stores the
  nodes in an array that `Update` and `Union` change in place. Each method is
  proved equal to the `Rebuild` or `UnionFind` function that specifies it. The
  queries are functions over the current array contents.

## Model

| member | source | states |
|---|---|---|
| Connectivity.DisjointSet.constructor | app/util/DisjointSet.py:13-20 | a new tracker keeps the given board and has an empty map |
| Connectivity.DisjointSet.Update | app/util/DisjointSet.py:22-49 | the map is rebuilt from scratch from the board as it is at the call (its current size and weights), with one node per cell, and the array ends up holding exactly `Built(b)` |
| Connectivity.DisjointSet.VisitColumn | app/util/DisjointSet.py:29-49 | visiting every cell of column x in order turns the forest of the earlier columns into the forest of columns 0..x |
| Connectivity.DisjointSet.Visit | app/util/DisjointSet.py:30-49 | one cell's visit appends one node and, for a non-zero weight, joins it to its neighbours; the result is `ScanCell` of the old forest |
| Connectivity.DisjointSet.JoinAll | app/util/DisjointSet.py:47-49 | uniting the new node with each neighbour coordinate that is a key, in list order, gives `JoinNeighbours` of the old forest |
| Connectivity.DisjointSet.Union | app/util/DisjointSet.py:64-88 | the in-place union keeps the forest invariant and leaves exactly `UnionFind.Union` of the old forest |
| Connectivity.DisjointSet.GetNode | app/util/DisjointSet.py:111-118 | a node comes back exactly when the coordinate is a key; once rebuilt, the keys are exactly the in-bounds cells; the node is the one created for that cell |
| Connectivity.DisjointSet.Lookup | app/util/DisjointSet.py:48-49 | the membership test `coord in self.map` and the lookup `self.map[...]`, which lines 98, 109 and 118 also use: a key names a node already created |
| Connectivity.DisjointSet.AreConnected | app/util/DisjointSet.py:101-109 | fails (None) iff one of the coordinates is not a key; otherwise true iff the two nodes find the same root |
| Connectivity.DisjointSet.AreConnectedIsEquivalence | app/util/DisjointSet.py:101-109 | over keys of the map, `areConnected` is reflexive, symmetric and transitive |
| Connectivity.DisjointSet.GetConnected | app/util/DisjointSet.py:90-99 | fails iff the coordinate is not a key; otherwise a node's cell is returned iff the node is the root of c's set or a direct child of it, and every returned cell is connected to c |
| Connectivity.DisjointSet.ChildCells | app/util/DisjointSet.py:97-99 | the cells of the root's direct children plus the root's cell are exactly the root and the nodes whose parent is the root, and each is a key in the root's set |
| Connectivity.DisjointSet.GetConnectedMissesGrandchild | app/util/DisjointSet.py:97-99 | on the 2 x 2 board with a zero-weight column x = 0, (0, 0) and (1, 1) are connected, yet `getConnected((1, 1))` omits (0, 0), while the whole set holds it |
| Connectivity.DisjointSet.GetComponent | app/util/DisjointSet.py:90-99 | the corrected query: fails iff c is not a key; otherwise d is returned iff `AreConnected(c, d)` is true |
| Connectivity.DisjointSet.ComponentCells | app/util/DisjointSet.py:98-99 | the cells of the nodes that find c's root are exactly the cells connected to c |
| Connectivity.DisjointSet.OpenCellJoinsEarlierNeighbours | app/util/DisjointSet.py:35-49 | after a rebuild, a cell of non-zero weight is connected to its left and its upper neighbour, whatever their weights |
| Connectivity.DisjointSet.OpenBoardConnected | app/util/DisjointSet.py:35-49 | after rebuilding a board with no zero weights, every two in-bounds cells are connected, and the set of any cell is the whole board |
| Connectivity.DisjointSet.BlockedBoardSingletons | app/util/DisjointSet.py:35-49 | after rebuilding a board with all weights zero, both `getConnected` and the whole set of every cell hold only that cell |
| Connectivity.DisjointSet.AloneAmongFresh | app/util/DisjointSet.py:90-99 | when every node is a fresh root, the connected cells of c are just {c} |
| UnionFind.Find | app/util/DisjointSet.py:51-62 | the result is a root; a root finds itself; a non-root finds a root of strictly higher rank |
| UnionFind.Link | app/util/DisjointSet.py:79-88 | hanging one root under another, as each branch of `union` does, keeps the forest invariant |
| UnionFind.Union | app/util/DisjointSet.py:64-88 | union keeps the forest invariant and the number of nodes |
| UnionFind.FindLink | app/util/DisjointSet.py:79-88 | after a link, the nodes that found the hung root now find the new root, and every other node finds what it found before |
| UnionFind.UnionMerges | app/util/DisjointSet.py:64-88 | after union(a, b), x and y are connected iff they were before, or one was with a and the other with b |
| UnionFind.UnionKeeps | app/util/DisjointSet.py:64-88 | union never separates two connected nodes |
| UnionFind.UnionLinksRoots | app/util/DisjointSet.py:71-88 | with a shared root nothing changes; otherwise exactly one root gets the other as parent; afterwards a and b are connected |
| UnionFind.UnionByRank | app/util/DisjointSet.py:71-88 | only the two roots change; the lower rank goes under the higher one, with no rank change; on a tie, root1 goes under root2 and root2's rank grows by one; the new child joins `directChildren`; only a root's rank changes |
| UnionFind.Fresh | app/util/DisjointSet.py:131-136 | a created node: no parent, no direct children, rank 0 |
| UnionFind.FreshKeepsValid | app/util/DisjointSet.py:131-136 | appending a new node keeps the forest invariant |
| UnionFind.AppendFresh | app/util/DisjointSet.py:131-136 | a new node (no parent, no children, rank 0) is a root of its own, and every older node keeps its root |
| UnionFind.ConnectedIsEquivalence | app/util/DisjointSet.py:101-109 | "same root" is reflexive, symmetric and transitive |
| Grid.Slot | app/util/DisjointSet.py:48-49 | the map lookup while `size` cells have been created: a key, if any, names one of those nodes |
| Grid.SlotComplete | app/util/DisjointSet.py:29-33 | once every cell has been visited, a coordinate is a key iff it is in bounds |
| Grid.SlotInjective | app/util/DisjointSet.py:31-33 | two coordinates that are keys of the same node are equal |
| Grid.CellOfSlot | app/util/DisjointSet.py:99 | decoding a created node's name gives back a key of that same node |
| Grid.CellOfInjective | app/util/DisjointSet.py:99 | distinct nodes decode to distinct cells |
| Grid.Surrounding | app/util/DisjointSet.py:37-45 | the neighbour list `update` builds, in its order: left, right, below, above (its content is stated by `SurroundingIsNeighbourhood`) |
| Grid.SurroundingIsNeighbourhood | app/util/DisjointSet.py:37-45 | the neighbour list holds exactly the in-bounds cells one step away along one axis |
| Grid.OnlyEarlierInMap | app/util/DisjointSet.py:29-48 | when (x, y) is visited, a listed neighbour is a key iff it is the left neighbour (x - 1, y) or the upper neighbour (x, y - 1) |
| Grid.LeftSlot | app/util/DisjointSet.py:29-33 | the left neighbour's node is the one created h visits earlier |
| Rebuild.JoinNeighbours | app/util/DisjointSet.py:47-49 | the loop over the neighbour list: `union(map[coord], newNode)` for each listed coordinate that is a key, in list order; keeps the forest invariant and the node count |
| Rebuild.ScanCell | app/util/DisjointSet.py:31-49 | one visit: a fresh node is appended and, for a non-zero weight, joined to its neighbours; the forest invariant holds and one node is added |
| Rebuild.Scanned | app/util/DisjointSet.py:29-49 | the forest after the visits of the columns before x and the first y cells of column x, in the order of the two loops; it keeps the forest invariant |
| Rebuild.Built | app/util/DisjointSet.py:26-49 | the rebuilt forest is valid and has one node per cell |
| Rebuild.ScannedSize | app/util/DisjointSet.py:29-33 | after visiting the first x columns and y more cells, the map holds x * height + y nodes |
| Rebuild.JoinKeeps | app/util/DisjointSet.py:47-49 | the neighbour joins of a visit never separate two nodes |
| Rebuild.JoinConnects | app/util/DisjointSet.py:47-49 | after the joins, the new node is connected to every listed neighbour that is a key |
| Rebuild.ScanCellKeeps | app/util/DisjointSet.py:30-49 | visiting a cell never separates two older nodes |
| Rebuild.ColumnKeeps | app/util/DisjointSet.py:30-49 | the later visits of one column never separate nodes that were already connected |
| Rebuild.ScanKeeps | app/util/DisjointSet.py:29-49 | later visits never separate nodes that were already connected |
| Rebuild.JoinSkipsAbsent | app/util/DisjointSet.py:47-49 | listed coordinates that are not keys add no union, wherever they stand in the list |
| Rebuild.JoinLast | app/util/DisjointSet.py:47-49 | a listed coordinate that is a key adds exactly the union of its node with the new node |
| Rebuild.EarlierNeighbours | app/util/DisjointSet.py:37-45 | the left and the upper neighbour, each when on the board, and nothing else |
| Rebuild.LeftJoined | app/util/DisjointSet.py:32-49 | the new node appended and united with the left neighbour's node when x > 0; the forest invariant holds |
| Rebuild.EarlierJoins | app/util/DisjointSet.py:32-49 | the visit of a non-zero cell as unions: with the left neighbour's node, then with the upper neighbour's node |
| Rebuild.OpenVisitJoinsEarlier | app/util/DisjointSet.py:37-49 | the edge rule, for every board: the joins over the whole neighbour list equal the joins over the left and upper neighbours alone, so the right and lower neighbours never add a union at this visit |
| Rebuild.LeftJoin | app/util/DisjointSet.py:38-49 | joining over the left neighbour alone is `LeftJoined` |
| Rebuild.EarlierJoinsUnions | app/util/DisjointSet.py:38-49 | joining over the earlier neighbours is exactly the union with the left node, then the union with the upper node |
| Rebuild.OpenVisitIsEarlierJoins | app/util/DisjointSet.py:29-49 | on every board, visiting a non-zero cell (x, y) turns the scanned forest into `EarlierJoins` of it: exactly two possible unions, with the left and the upper neighbour |
| Rebuild.NeighbourJoined | app/util/DisjointSet.py:35-49 | a non-zero cell ends up connected to each neighbour that was a key when the cell was visited |
| Rebuild.NonZeroJoinsEarlierNeighbours | app/util/DisjointSet.py:35-49 | a non-zero cell ends up connected to its left neighbour (x - 1, y) and its upper neighbour (x, y - 1) |
| Rebuild.OpenCellMissesLaterWall | app/util/DisjointSet.py:35-49 | an instance of the edge rule stated in general by `OpenVisitIsEarlierJoins`: on the one-column board with weights 1 then 0, the two cells stay apart |
| Rebuild.TwoLevelTree | app/util/DisjointSet.py:35-49 | on the 2 x 2 board with a zero-weight column x = 0, the rebuild leaves node 0 under node 2 under the root 3 |
| Rebuild.TwoLevelFinds | app/util/DisjointSet.py:51-62 | in that tree, node 0 and node 3 both find the root 3 |
| Rebuild.AllBlockedSingletons | app/util/DisjointSet.py:35-36 | on an all-zero board no union happens: every node is a fresh root |
| Rebuild.AllOpenConnected | app/util/DisjointSet.py:35-49 | on a board with no zero weights, every two nodes of the rebuilt forest are connected |
| Rebuild.OpenColumnConnected | app/util/DisjointSet.py:30-49 | on such a board, the visits of one column keep the scanned nodes a single set |
| Rebuild.OpenScanConnected | app/util/DisjointSet.py:29-49 | on such a board, if the nodes of the columns before x form one set, then all nodes form one set once the scan ends |

## Left out

- `toString` (`app/util/DisjointSet.py:120-128`) only prints a tree, so it is not modelled.
- String keys are not modelled. The map keys and `Node.name` are the strings `'[x, y]'`, and `getConnected` decodes names with `eval`. The model uses the cell's own coordinates and the node's creation index. The format of the key strings is not modelled.
- The board is abstracted to its width, height and a weight function. The Board class is not part of this model.
- The tracker keeps a reference to the caller's Board object, which the caller changes between calls to `update`. The model does not model that aliasing. Instead, `Update` takes the board as it is at the call, and the queries answer about the board of the last rebuild.
- Weights are integers here, and `weight is not 0` is modelled as `weight != 0`. Float weights and Python's identity comparison of small integers are not modelled.
- A coordinate that is not a key raises `KeyError` in the source. Here it is a `None` result.
- Lists of cells are modelled as sets. `getConnected` returns a Python list in set-iteration order; the model keeps the elements, not their order.
- `Node` objects and their aliasing are modelled as indices into one array. `Union` takes node indices where the source takes `Node` objects.
- `find` is recursive in the source, and Python limits recursion depth. The model has no such limit. It does not matter here: union by rank keeps a tree of n nodes at most log2 n deep, far below the limit on any board.
- Connectivity.DisjointSet.GetConnected: the model states what the code returns, which is only one level below the root (see Findings). The intended full set is `GetComponent`.

## Findings

| source | as written | input that shows it | evidently intended | confidence | as-written member | corrected member |
|---|---|---|---|---|---|---|
| app/util/DisjointSet.py:97-99 | `getConnected` returns the root's direct children and the root, not the whole set; the line-97 comment says so | a 2 x 2 board with weight 0 at [0, 0] and [0, 1] and non-zero weight at [1, 0] and [1, 1]: `areConnected([0, 0], [1, 1])` is true, but `getConnected([1, 1])` omits [0, 0], which sits two levels below the root | every cell whose node has the same root | high (not executed) | Connectivity.DisjointSet.GetConnectedMissesGrandchild | Connectivity.DisjointSet.GetComponent |
