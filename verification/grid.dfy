/** The maze's grid: a dictionary from integer coordinates to tiles. */
module Grid {

  /** `Tile.SIZE`, and the window the application opens. */
  const TileSize: int := 32
  const ScreenWidth: int := 1024
  const ScreenHeight: int := 640

  /** The application's grid is 32 tiles wide and 20 tiles high. */
  const Width: int := ScreenWidth / TileSize
  const Height: int := ScreenHeight / TileSize

  /** Tile coordinates; the source recovers them from a tile's pixel rectangle. */
  datatype Coord = Coord(x: int, y: int)

  /** Where the tracker starts (and what `self.x, self.y` hold before the first `goto`). */
  const Origin: Coord := Coord(0, 0)

  /** A tile owns only its east and south walls: its north wall is the south
      wall of the tile above it, its west wall the east wall of the tile on its left. */
  datatype Tile = Tile(east: bool, south: bool, visited: bool)

  /** `Tile.__init__`: both walls standing, not yet visited. */
  const FreshTile: Tile := Tile(true, true, false)

  /** `Tile.visit`: the tile becomes visited and keeps both its walls. */
  function Visit(t: Tile): (r: Tile)
    ensures r.visited && r.east == t.east && r.south == t.south
  {
    t.(visited := true)
  }

  type Tiles = map<Coord, Tile>

  /** `c` is a tile and has been visited. */
  predicate IsVisited(tiles: Tiles, c: Coord)
  {
    c in tiles && tiles[c].visited
  }

  predicate InRange(c: Coord, w: int, h: int)
  {
    0 <= c.x < w && 0 <= c.y < h
  }

  /** The coordinates `Maze.__init__` fills: `range(w)` by `range(h)`. */
  function Cells(w: int, h: int): (cs: set<Coord>)
    ensures forall c :: c in cs <==> InRange(c, w, h)
  {
    var cs := set x, y | 0 <= x < w && 0 <= y < h :: Coord(x, y);
    assert forall c :: InRange(c, w, h) ==> Coord(c.x, c.y) in cs;
    cs
  }

  /** The grid as `Maze.__init__` leaves it: one fresh tile on every cell, nothing elsewhere. */
  function FreshGrid(w: int, h: int): (g: Tiles)
    ensures forall c :: c in g <==> InRange(c, w, h)
    ensures forall c :: c in g ==> g[c] == FreshTile
  {
    map c | c in Cells(w, h) :: FreshTile
  }

  /** The nested loops of `Maze.__init__`, column by column. */
  method BuildGrid(w: int, h: int) returns (g: Tiles)
    ensures forall c :: c in g <==> InRange(c, w, h)
    ensures forall c :: c in g ==> g[c] == FreshTile
    ensures g == FreshGrid(w, h)
    ensures w >= 0 && h >= 0 ==> |g| == w * h
  {
    g := map[];
    var x := 0;
    while x < w
      invariant 0 <= x <= if w < 0 then 0 else w
      invariant forall c :: c in g <==> InRange(c, x, h)
      invariant forall c :: c in g ==> g[c] == FreshTile
      invariant h >= 0 ==> |g| == x * h
    {
      g := FillColumn(g, x, h);
      assert h >= 0 ==> x * h + h == (x + 1) * h;
      x := x + 1;
    }
    assert g.Keys == FreshGrid(w, h).Keys;
  }

  /** The inner loop of `Maze.__init__`: one fresh tile at `(x, y)` for each `y` in `range(h)`. */
  method FillColumn(g0: Tiles, x: int, h: int) returns (g: Tiles)
    requires forall c :: c in g0 ==> c.x < x
    ensures forall c :: c in g <==> c in g0 || (c.x == x && 0 <= c.y < h)
    ensures forall c :: c in g ==> g[c] == if c in g0 then g0[c] else FreshTile
    ensures h >= 0 ==> |g| == |g0| + h
  {
    g := g0;
    var y := 0;
    while y < h
      invariant 0 <= y <= if h < 0 then 0 else h
      invariant forall c :: c in g <==> c in g0 || (c.x == x && 0 <= c.y < y)
      invariant forall c :: c in g ==> g[c] == if c in g0 then g0[c] else FreshTile
      invariant |g| == |g0| + y
    {
      g := g[Coord(x, y) := FreshTile];
      y := y + 1;
    }
  }

  function North(c: Coord): Coord { Coord(c.x, c.y - 1) }
  function East(c: Coord): Coord { Coord(c.x + 1, c.y) }
  function South(c: Coord): Coord { Coord(c.x, c.y + 1) }
  function West(c: Coord): Coord { Coord(c.x - 1, c.y) }

  function Abs(n: int): nat
  {
    if n < 0 then -n else n
  }

  /** Two tiles share an edge: Manhattan distance exactly 1. */
  predicate Adjacent(a: Coord, b: Coord)
  {
    Abs(a.x - b.x) + Abs(a.y - b.y) == 1
  }

  /** The four compass steps are exactly the adjacent coordinates. */
  lemma AdjacentIsCompassStep(a: Coord, b: Coord)
    ensures Adjacent(a, b) <==> b == North(a) || b == East(a) || b == South(a) || b == West(a)
  {
  }

  datatype Side = EastSide | SouthSide

  /** A wall flag: the `east` or `south` flag of the tile at `at`. */
  datatype Wall = Wall(at: Coord, side: Side)

  /** The tile on the other side of a wall from its owner. */
  function Beyond(w: Wall): Coord
  {
    match w.side
    case EastSide => East(w.at)
    case SouthSide => South(w.at)
  }

  predicate Standing(tiles: Tiles, w: Wall)
    requires w.at in tiles
  {
    match w.side
    case EastSide => tiles[w.at].east
    case SouthSide => tiles[w.at].south
  }

  /** A grid of new tiles: every wall on it stands and no tile is visited. */
  lemma FreshGridStanding(w: int, h: int, wall: Wall)
    requires wall.at in FreshGrid(w, h)
    ensures Standing(FreshGrid(w, h), wall) && !IsVisited(FreshGrid(w, h), wall.at)
  {
  }

  /** Set one wall flag to false. */
  function ClearWall(tiles: Tiles, w: Wall): Tiles
    requires w.at in tiles
  {
    var t := tiles[w.at];
    tiles[w.at := match w.side case EastSide => t.(east := false) case SouthSide => t.(south := false)]
  }

  /** The wall on the edge two adjacent tiles share: it belongs to whichever
      of them is nearer the origin, on its east side when they lie in a row. */
  function SharedWall(a: Coord, b: Coord): (w: Wall)
    requires Adjacent(a, b)
    ensures {w.at, Beyond(w)} == {a, b}
  {
    var near := if a.x + a.y < b.x + b.y then a else b;
    Wall(near, if a.y == b.y then EastSide else SouthSide)
  }

  /** `after` is `before` with exactly the walls in `ws` knocked down (visited flags aside). */
  predicate ClearsExactly(before: Tiles, after: Tiles, ws: set<Wall>)
  {
    && after.Keys == before.Keys
    && forall c :: c in before ==>
         && after[c].east == (before[c].east && Wall(c, EastSide) !in ws)
         && after[c].south == (before[c].south && Wall(c, SouthSide) !in ws)
  }

  /** `after` is `before` with exactly the tiles in `vs` marked visited (walls aside). */
  predicate VisitsExactly(before: Tiles, after: Tiles, vs: set<Coord>)
  {
    && after.Keys == before.Keys
    && forall c :: c in before ==> after[c].visited == (before[c].visited || c in vs)
  }

  /** Same tiles, and a visited tile stays visited. */
  predicate VisitedGrows(before: Tiles, after: Tiles)
  {
    && after.Keys == before.Keys
    && forall c :: c in before ==> (before[c].visited ==> after[c].visited)
  }

  /** Walls only ever fall and tiles only ever become visited. */
  predicate Monotone(before: Tiles, after: Tiles)
  {
    && VisitedGrows(before, after)
    && forall c :: c in before ==>
         && (after[c].east ==> before[c].east)
         && (after[c].south ==> before[c].south)
  }

  lemma ExactChangesAreMonotone(before: Tiles, after: Tiles, ws: set<Wall>, vs: set<Coord>)
    requires ClearsExactly(before, after, ws) && VisitsExactly(before, after, vs)
    ensures Monotone(before, after)
  {
  }

  lemma ClearsCompose(a: Tiles, b: Tiles, c: Tiles, w1: set<Wall>, w2: set<Wall>)
    requires ClearsExactly(a, b, w1) && ClearsExactly(b, c, w2)
    ensures ClearsExactly(a, c, w1 + w2)
  {
  }

  lemma VisitsCompose(a: Tiles, b: Tiles, c: Tiles, v1: set<Coord>, v2: set<Coord>)
    requires VisitsExactly(a, b, v1) && VisitsExactly(b, c, v2)
    ensures VisitsExactly(a, c, v1 + v2)
  {
  }

  lemma MonotoneTransitive(a: Tiles, b: Tiles, c: Tiles)
    requires Monotone(a, b) && Monotone(b, c)
    ensures Monotone(a, c)
  {
  }

  /** No wall on the outer border of the grid is ever knocked down. */
  predicate BorderIntact(tiles: Tiles)
  {
    forall c :: c in tiles ==>
      && (!tiles[c].east ==> East(c) in tiles)
      && (!tiles[c].south ==> South(c) in tiles)
  }
}
