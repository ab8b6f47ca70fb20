/** The per-tick snapshot the bot reads: the occupancy grid and the players.
    A cell holds 0 when it is empty; any other value marks a wall, a trail or
    a head. */
module Board {
  import opened Geometry

  /** A width x height grid; `cell` gives the occupancy marker of a cell and
      is only consulted for cells inside the bounds. */
  datatype Grid = Grid(width: nat, height: nat, cell: Cell -> int)

  datatype Player = Player(name: string, position: Cell)

  datatype GameState = GameState(grid: Grid, players: seq<Player>)

  /** `isInsideGrid` */
  predicate Inside(g: Grid, c: Cell) {
    0 <= c.x < g.width && 0 <= c.y < g.height
  }

  /** A cell the bot may enter or count: inside the grid and empty. */
  predicate Passable(g: Grid, c: Cell) {
    Inside(g, c) && g.cell(c) == 0
  }

  /** The cells (x, y) with 0 <= x < w of row y. */
  function RowCells(w: nat, y: int): (s: set<Cell>)
    ensures forall c :: c in s <==> c.y == y && 0 <= c.x < w
    ensures |s| == w
  {
    if w == 0 then {} else RowCells(w - 1, y) + {Cell(w - 1, y)}
  }

  /** All cells of a w x h grid. */
  function BoxCells(w: nat, h: nat): (s: set<Cell>)
    ensures forall c :: c in s <==> 0 <= c.x < w && 0 <= c.y < h
    ensures |s| == w * h
  {
    if h == 0 then {}
    else
      var below := BoxCells(w, h - 1);
      var row := RowCells(w, h - 1);
      assert below * row == {};
      below + row
  }

  /** The cells of the grid. */
  function GridCells(g: Grid): (s: set<Cell>)
    ensures forall c :: c in s <==> Inside(g, c)
    ensures |s| == g.width * g.height
  {
    BoxCells(g.width, g.height)
  }

  /** The empty cells of the grid. */
  function FreeCells(g: Grid): (s: set<Cell>)
    ensures forall c :: c in s <==> Passable(g, c)
    ensures |s| <= g.width * g.height
  {
    var all := GridCells(g);
    var free := set c | c in all && g.cell(c) == 0;
    SubsetCardinality(free, all);
    free
  }

  lemma SubsetCardinality<T>(a: set<T>, b: set<T>)
    requires a <= b
    ensures |a| <= |b|
  {
    assert b == a + (b - a);
  }
}
