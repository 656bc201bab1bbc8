/** The `Tracker`: a randomised depth-first walk that carves the maze,
    backtracking through its history stack. */
module Tracker {
  import opened Results
  import opened Stacks
  import opened Grid

  /** The tracker together with the maze's tile dictionary it mutates:
      `pos` is `(self.x, self.y)`, `history` the stack of tiles it went to. */
  datatype Tracker = Tracker(tiles: Tiles, pos: Coord, history: Stack<Coord>)

  /** `goto(None)` fails on `None.visit()` when the start is not a tile. */
  datatype TrackerError = NoStartTile

  /** `self.maze.tiles.get((x, y), None)`. */
  function Get(tiles: Tiles, c: Coord): Option<Tile>
  {
    if c in tiles then Some(tiles[c]) else None
  }

  /** `Tracker.is_accessible`: a tile that exists and is not yet visited. */
  predicate IsAccessible(t: Option<Tile>)
  {
    t.Some? && !t.value.visited
  }

  /** `is_accessible` on the result of `get`: the coordinate is a tile that has
      not been visited. */
  lemma AccessibleGet(tiles: Tiles, c: Coord)
    ensures IsAccessible(Get(tiles, c)) <==> c in tiles && !IsVisited(tiles, c)
  {
  }

  /** The inner `check` of `accessible_neighbor`. */
  function Check(acc: seq<Coord>, tiles: Tiles, c: Coord): seq<Coord>
  {
    if IsAccessible(Get(tiles, c)) then acc + [c] else acc
  }

  /** Rank of a neighbour in the order the source looks at them: north, east, south, west. */
  function Compass(c: Coord, n: Coord): nat
  {
    if n == North(c) then 0
    else if n == East(c) then 1
    else if n == South(c) then 2
    else if n == West(c) then 3
    else 4
  }

  /** The walk cannot go on from `c`: it is no tile, or no tile in any compass
      direction from it is accessible. */
  predicate DeadEnd(tiles: Tiles, c: Coord)
  {
    || c !in tiles
    || (&& !IsAccessible(Get(tiles, North(c)))
        && !IsAccessible(Get(tiles, East(c)))
        && !IsAccessible(Get(tiles, South(c)))
        && !IsAccessible(Get(tiles, West(c))))
  }

  /** `accessible_neighbor`: the unvisited tiles next to `c`, in compass order;
      none at all when `c` is not a tile. */
  function AccessibleNeighbors(tiles: Tiles, c: Coord): (r: seq<Coord>)
    ensures |r| <= 4
    ensures forall n :: n in r <==> c in tiles && Adjacent(c, n) && n in tiles && !tiles[n].visited
    ensures forall i, j :: 0 <= i < j < |r| ==> Compass(c, r[i]) < Compass(c, r[j])
    ensures r == [] <==> DeadEnd(tiles, c)
  {
    if c !in tiles then []
    else
      AdjacentIsCompassStep(c, North(c));
      Check(Check(Check(Check([], tiles, North(c)), tiles, East(c)), tiles, South(c)), tiles, West(c))
  }


  /** The `if/elif` chain of `goto`: which wall flag is cleared when the tracker
      goes from `here` to `t`, judged by comparing x first and y second only. */
  function GotoWall(here: Coord, t: Coord): Option<Wall>
  {
    if t.x < here.x then Some(Wall(t, EastSide))
    else if t.x > here.x then Some(Wall(here, EastSide))
    else if t.y < here.y then Some(Wall(t, SouthSide))
    else if t.y > here.y then Some(Wall(here, SouthSide))
    else None
  }
  /** The chain clears a flag unless the tracker stays put; the flag belongs to
      one of the two tiles, and it is an east wall whenever the x coordinates
      differ, whatever the y coordinates. */
  lemma GotoWallSelects(here: Coord, t: Coord)
    ensures GotoWall(here, t).None? <==> here == t
    ensures GotoWall(here, t).Some? ==> GotoWall(here, t).value.at == here || GotoWall(here, t).value.at == t
    ensures here.x != t.x ==> GotoWall(here, t).Some? && GotoWall(here, t).value.side == EastSide
  {
  }


  function WallSet(w: Option<Wall>): set<Wall>
  {
    match w
    case None => {}
    case Some(x) => {x}
  }

  /** `goto(t)`: visit `t`, push it, clear the wall the comparison with the
      current position selects, and move to `t`. Nothing else changes. */
  function Goto(s: Tracker, t: Coord): (r: Tracker)
    requires t in s.tiles && s.pos in s.tiles
    ensures r.pos == t
    ensures r.history == Add(s.history, t)
    ensures VisitsExactly(s.tiles, r.tiles, {t})
    ensures ClearsExactly(s.tiles, r.tiles, WallSet(GotoWall(s.pos, t)))
  {
    var visited := s.tiles[t := Visit(s.tiles[t])];
    var carved := match GotoWall(s.pos, t)
                  case None => visited
                  case Some(w) => ClearWall(visited, w);
    Tracker(carved, t, Add(s.history, t))
  }

  /** `goto` between adjacent tiles knocks down exactly the wall they share. */
  lemma GotoWallAdjacent(a: Coord, b: Coord)
    requires Adjacent(a, b)
    ensures GotoWall(a, b) == Some(SharedWall(a, b))
  {
  }

  /** `goto` between two different tiles always clears some wall, and when
      they are not adjacent that wall does not lie between them. */
  lemma GotoWallNotAdjacent(a: Coord, b: Coord)
    requires a != b && !Adjacent(a, b)
    ensures GotoWall(a, b).Some?
    ensures {GotoWall(a, b).value.at, Beyond(GotoWall(a, b).value)} != {a, b}
  {
    var w := GotoWall(a, b).value;
    if {w.at, Beyond(w)} == {a, b} {
      assert Adjacent(w.at, Beyond(w));
      assert false;
    }
  }

  /** Accessibility from `c` looks only at the visited flags of `c`'s neighbours. */
  lemma AccessibleStable(a: Tiles, b: Tiles, c: Coord)
    requires a.Keys == b.Keys
    requires forall d :: d in a && d != c ==> b[d].visited == a[d].visited
    ensures AccessibleNeighbors(a, c) == AccessibleNeighbors(b, c)
  {
    assert North(c) != c && East(c) != c && South(c) != c && West(c) != c;
  }

  /** The advancing branch of `update`: go to the `k`-th accessible neighbour.
      That tile was an unvisited neighbour; it alone becomes visited, it is pushed
      and becomes the position, and exactly the wall between the two tiles falls. */
  function Advance(s: Tracker, k: nat): (r: Tracker)
    requires s.pos in s.tiles
    requires k < |AccessibleNeighbors(s.tiles, s.pos)|
    ensures var n := AccessibleNeighbors(s.tiles, s.pos)[k];
      && Adjacent(s.pos, n) && n in s.tiles && !s.tiles[n].visited
      && r.pos == n
      && r.history.items == s.history.items + [n]
      && VisitsExactly(s.tiles, r.tiles, {n})
      && ClearsExactly(s.tiles, r.tiles, {SharedWall(s.pos, n)})
  {
    var n := AccessibleNeighbors(s.tiles, s.pos)[k];
    assert n in AccessibleNeighbors(s.tiles, s.pos);
    GotoWallAdjacent(s.pos, n);
    Goto(s, n)
  }

  /** Outcome of the popping loop of `find`. */
  datatype Resume = Exhausted | ResumeAt(tile: Coord, rest: Stack<Coord>)

  /** The popping loop of `find`: pop until the popped tile has an accessible
      neighbour (`ResumeAt` it, with what is left below it) or the stack runs out.
      `Exhausted` exactly when every entry is a dead end; otherwise the tile
      resumed at is the topmost entry that is not a dead end. */
  function Backtrack(tiles: Tiles, h: Stack<Coord>): (r: Resume)
    decreases |h.items|
    ensures r.Exhausted? <==> forall i :: 0 <= i < |h.items| ==> DeadEnd(tiles, h.items[i])
    ensures r.ResumeAt? ==>
      var m := |r.rest.items|;
      && m < |h.items|
      && h.items[..m] == r.rest.items
      && h.items[m] == r.tile
      && !DeadEnd(tiles, r.tile)
      && forall i :: m < i < |h.items| ==> DeadEnd(tiles, h.items[i])
  {
    match GetData(h)
    case Failure(_) => Exhausted
    case Success(popped) =>
      var (t, rest) := popped;
      assert h.items == rest.items + [t];
      if AccessibleNeighbors(tiles, t) != [] then ResumeAt(t, rest)
      else
        var r := Backtrack(tiles, rest);
        assert forall i :: 0 <= i < |rest.items| ==> h.items[i] == rest.items[i];
        assert r.ResumeAt? ==> h.items[..|r.rest.items|] == rest.items[..|r.rest.items|];
        r
  }

  /** The list `random.choice` draws from when `find` resumes: the accessible
      neighbours of the tile it resumes at (none when history runs out). */
  function ResumeChoices(s: Tracker): seq<Coord>
  {
    match Backtrack(s.tiles, s.history)
    case Exhausted => []
    case ResumeAt(t, _) => AccessibleNeighbors(s.tiles, t)
  }

  /** The list `random.choice` draws from during one `update`. */
  function Choices(s: Tracker): seq<Coord>
  {
    var here := AccessibleNeighbors(s.tiles, s.pos);
    if here != [] then here else ResumeChoices(s)
  }

  /** `find` has nothing to draw from exactly when history runs out, and
      otherwise draws among unvisited tiles. */
  lemma ResumeChoicesEmpty(s: Tracker)
    ensures ResumeChoices(s) == [] <==> Backtrack(s.tiles, s.history).Exhausted?
    ensures forall n :: n in ResumeChoices(s) ==> n in s.tiles && !s.tiles[n].visited
  {
  }

  /** `update` has nothing to draw from exactly when the position is a dead end
      and history runs out, and otherwise draws among unvisited tiles. */
  lemma ChoicesEmpty(s: Tracker)
    ensures Choices(s) == [] <==> DeadEnd(s.tiles, s.pos) && Backtrack(s.tiles, s.history).Exhausted?
    ensures forall n :: n in Choices(s) ==> n in s.tiles && !s.tiles[n].visited
  {
    ResumeChoicesEmpty(s);
  }

  /** `find`: pop to the topmost tile with an accessible neighbour, `goto` it
      from the dead end (the position is still the dead end), then the nested
      `update` advances from it. When history runs out nothing but history changes. */
  function Find(s: Tracker, k: nat): (r: Tracker)
    requires s.pos in s.tiles
    requires ResumeChoices(s) != [] ==> k < |ResumeChoices(s)|
    ensures r.pos in r.tiles
    ensures Monotone(s.tiles, r.tiles)
  {
    match Backtrack(s.tiles, s.history)
    case Exhausted => s.(history := Empty())
    case ResumeAt(t, rest) =>
      var resumed := Goto(s.(history := rest), t);
      AccessibleStable(s.tiles, resumed.tiles, t);
      var r := Advance(resumed, k);
      ExactChangesAreMonotone(s.tiles, resumed.tiles, WallSet(GotoWall(s.pos, t)), {t});
      ExactChangesAreMonotone(resumed.tiles, r.tiles, {SharedWall(t, r.pos)}, {r.pos});
      MonotoneTransitive(s.tiles, resumed.tiles, r.tiles);
      r
  }

  /** `update`: advance to the `k`-th accessible neighbour, or backtrack via `find`.
      The grid keeps its tiles; walls only fall and visited flags only rise. */
  function Update(s: Tracker, k: nat): (r: Tracker)
    requires s.pos in s.tiles
    requires Choices(s) != [] ==> k < |Choices(s)|
    ensures r.pos in r.tiles
    ensures Monotone(s.tiles, r.tiles)
  {
    if AccessibleNeighbors(s.tiles, s.pos) != [] then
      var r := Advance(s, k);
      ExactChangesAreMonotone(s.tiles, r.tiles, {SharedWall(s.pos, r.pos)}, {r.pos});
      r
    else Find(s, k)
  }

  /** `Tracker.__init__` with the default start: position `(0, 0)`, empty
      history, then `goto` the start tile. Fails when `(0, 0)` is not a tile. */
  function NewTracker(tiles: Tiles): (r: Result<Tracker, TrackerError>)
    ensures r.Failure? <==> Origin !in tiles
    ensures r.Success? ==>
      && r.value.pos == Origin
      && r.value.history.items == [Origin]
      && VisitsExactly(tiles, r.value.tiles, {Origin})
      && ClearsExactly(tiles, r.value.tiles, {})
  {
    if Origin !in tiles then Failure(NoStartTile)
    else Success(Goto(Tracker(tiles, Origin, Empty()), Origin))
  }

  /** `Maze.__init__` for a `w` by `h` grid: fresh tiles, then the tracker.
      Succeeds exactly for a non-empty grid; then the start alone is visited,
      it alone is in history and no wall has fallen. */
  function NewMaze(w: int, h: int): (r: Result<Tracker, TrackerError>)
    ensures r.Success? <==> w > 0 && h > 0
    ensures r.Success? ==>
      && r.value.pos == Origin
      && r.value.history.items == [Origin]
      && (forall c :: c in r.value.tiles <==> InRange(c, w, h))
      && (forall c :: c in r.value.tiles ==>
            r.value.tiles[c] == if c == Origin then Visit(FreshTile) else FreshTile)
  {
    NewTracker(FreshGrid(w, h))
  }

  /** The application's window holds a 32 by 20 grid, on which the maze starts. */
  lemma AppMaze()
    ensures Width == 32 && Height == 20
    ensures NewMaze(Width, Height).Success?
  {
  }
}
