/** The board the connectivity engine reads, and the way a cell is found in
    the node map: cells are created in x-major order, so the node of cell
    (x, y) is the one created at position x * height + y. */
module Grid {
  import opened Wrappers

  /** A board cell, as the pair [x, y]. */
  type Coord = (int, int)

  /** The read-only view of the game board: its dimensions and the weight of
      each cell; a weight of 0 means the cell is blocked. */
  datatype Board = Board(width: nat, height: nat, weight: (int, int) -> int)

  predicate InBounds(w: nat, h: nat, c: Coord) {
    0 <= c.0 < w && 0 <= c.1 < h
  }

  /** Looks up cell c in a node map built over a w-by-h board that so far
      holds the first `size` cells of the scan: the node index, or None when
      the key is absent. */
  function Slot(w: nat, h: nat, size: nat, c: Coord): (r: Option<nat>)
    ensures r.Some? ==> r.value < size
  {
    if InBounds(w, h, c) && c.0 * h + c.1 < size then Some(c.0 * h + c.1) else None
  }

  /** The cell whose node sits at position j of the scan. */
  function CellOf(h: nat, j: nat): Coord
    requires h > 0
  {
    (j / h, j % h)
  }

  /** The in-bounds orthogonal neighbours of (x, y), in the order the
      rebuild visits them: left, right, below, above. */
  function Surrounding(w: nat, h: nat, x: int, y: int): seq<Coord> {
    (if x - 1 >= 0 then [(x - 1, y)] else [])
    + (if x + 1 < w then [(x + 1, y)] else [])
    + (if y + 1 < h then [(x, y + 1)] else [])
    + (if y - 1 >= 0 then [(x, y - 1)] else [])
  }

  /** Every in-bounds cell has a scan position below w * h. */
  lemma IndexBelow(w: nat, h: nat, x: int, y: int)
    requires 0 <= x < w && 0 <= y < h
    ensures x * h + y < w * h
  {
    assert (x + 1) * h == x * h + h;
    MulMonotone(x + 1, w, h);
  }

  /** Once the whole board has been scanned, a key is in the map exactly
      when the cell is on the board. */
  lemma SlotComplete(w: nat, h: nat, c: Coord)
    ensures Slot(w, h, w * h, c).Some? <==> InBounds(w, h, c)
  {
    if InBounds(w, h, c) {
      IndexBelow(w, h, c.0, c.1);
    }
  }

  /** Multiplying by a natural number keeps the order of its factors. */
  lemma MulMonotone(a: int, b: int, h: nat)
    requires a <= b
    ensures a * h <= b * h
  {
    assert b * h == a * h + (b - a) * h;
  }

  /** Two distinct cells never share a node. */
  lemma SlotInjective(w: nat, h: nat, size: nat, c1: Coord, c2: Coord)
    requires Slot(w, h, size, c1).Some? && Slot(w, h, size, c1) == Slot(w, h, size, c2)
    ensures c1 == c2
  {
    var (x1, y1) := c1;
    var (x2, y2) := c2;
    if x1 < x2 {
      MulMonotone(x1 + 1, x2, h);
    } else if x2 < x1 {
      MulMonotone(x2 + 1, x1, h);
    }
  }

  /** The node at position j of a map holding `size` cells is the node of
      cell CellOf(h, j): the name stored in a node gives back its key. */
  lemma CellOfSlot(w: nat, h: nat, size: nat, j: nat)
    requires h > 0 && j < size <= w * h
    ensures Slot(w, h, size, CellOf(h, j)) == Some(j)
  {
    var x, y := j / h, j % h;
    assert j == x * h + y;
  }

  /** Distinct nodes of a map carry distinct names. */
  lemma CellOfInjective(w: nat, h: nat, size: nat, i: nat, j: nat)
    requires h > 0 && i < size <= w * h && j < size
    requires CellOf(h, i) == CellOf(h, j)
    ensures i == j
  {
    CellOfSlot(w, h, size, i);
    CellOfSlot(w, h, size, j);
  }

  /** The neighbour list is exactly the set of in-bounds cells at distance
      one from (x, y) along one axis. */
  lemma SurroundingIsNeighbourhood(w: nat, h: nat, x: int, y: int, c: Coord)
    requires InBounds(w, h, (x, y))
    ensures c in Surrounding(w, h, x, y) <==>
      InBounds(w, h, c) && ((c.1 == y && (c.0 == x - 1 || c.0 == x + 1)) || (c.0 == x && (c.1 == y - 1 || c.1 == y + 1)))
  {
  }

  /** When cell (x, y) is visited, its node being the last one created, the
      only neighbours already in the map are the left one (x - 1, y) and the
      upper one (x, y - 1); the right and lower ones come later in the scan. */
  lemma OnlyEarlierInMap(w: nat, h: nat, x: int, y: int, c: Coord)
    requires 0 <= x < w && 0 <= y < h && c in Surrounding(w, h, x, y)
    ensures Slot(w, h, x * h + y + 1, c).Some? <==> c == (x - 1, y) || c == (x, y - 1)
  {
    if c == (x + 1, y) {
      assert (x + 1) * h + y == x * h + y + h;
    } else if c == (x - 1, y) {
      assert (x - 1) * h + y == x * h + y - h;
    }
  }

  /** The left neighbour of cell (x, y) sits one column, that is h nodes,
      before it. */
  lemma LeftSlot(w: nat, h: nat, x: int, y: int)
    requires 0 < x < w && 0 <= y < h
    ensures x * h + y >= h && Slot(w, h, x * h + y + 1, (x - 1, y)) == Some(x * h + y - h)
  {
    assert (x - 1) * h == x * h - h;
    MulMonotone(1, x, h);
  }
}
