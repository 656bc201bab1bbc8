/** `find` calls `goto(t)` while the position is still the dead end it left,
    so a backtracking `update` also clears the wall flag the comparison of the
    dead end with `t` selects. That flag need not be down yet, and when it is
    not, the `update` opens one wall more than it should.
    This module shows it on a 3 by 3 grid and proves that the step the code
    evidently intends, resuming at `t` without that comparison, keeps the
    carved passages counting one fewer than the visited tiles, as a tree's edges do. */
module Findings {
  import opened Results
  import opened Stacks
  import opened Grid
  import opened Tracker
  import opened Traversal

  /** The wall flags that are down. */
  ghost function ClearedWalls(tiles: Tiles): set<Wall>
  {
    (set c | c in tiles && !tiles[c].east :: Wall(c, EastSide))
      + (set c | c in tiles && !tiles[c].south :: Wall(c, SouthSide))
  }

  /** The visited tiles; `c in tiles` is spelled out so that Dafny sees the
      comprehension is bounded by the dictionary's keys. */
  ghost function VisitedTiles(tiles: Tiles): set<Coord>
  {
    set c | c in tiles && IsVisited(tiles, c)
  }

  lemma ClearedWallsMember(tiles: Tiles, w: Wall)
    ensures w in ClearedWalls(tiles) <==> w.at in tiles && !Standing(tiles, w)
  {
  }

  /** Every passage joins two visited tiles. */
  ghost predicate PassagesJoinVisited(tiles: Tiles)
  {
    forall w :: w in ClearedWalls(tiles) ==> IsVisited(tiles, w.at) && IsVisited(tiles, Beyond(w))
  }

  /** As many passages as visited tiles less one: the edge count of a tree. */
  ghost predicate TreeCount(tiles: Tiles)
  {
    |ClearedWalls(tiles)| + 1 == |VisitedTiles(tiles)|
  }

  /** Knocking down standing walls adds exactly them to the passages. */
  lemma ClearedAfter(a: Tiles, b: Tiles, ws: set<Wall>)
    requires ClearsExactly(a, b, ws)
    requires forall w :: w in ws ==> w.at in a && Standing(a, w)
    ensures ClearedWalls(b) == ClearedWalls(a) + ws
    ensures ClearedWalls(a) !! ws
  {
    forall w
      ensures w in ClearedWalls(b) <==> w in ClearedWalls(a) + ws
    {
      ClearedWallsMember(a, w);
      ClearedWallsMember(b, w);
    }
    forall w | w in ws
      ensures w !in ClearedWalls(a)
    {
      ClearedWallsMember(a, w);
    }
  }

  lemma VisitedAfter(a: Tiles, b: Tiles, vs: set<Coord>)
    requires VisitsExactly(a, b, vs)
    requires vs <= a.Keys
    ensures VisitedTiles(b) == VisitedTiles(a) + vs
  {
  }

  /** The wall toward an unvisited tile is still standing: were it down, the
      tile beyond it would be visited. */
  lemma WallToUnvisitedStands(a: Tiles, p: Coord, n: Coord)
    requires p in a && n in a && !a[n].visited && Adjacent(p, n)
    requires PassagesJoinVisited(a)
    ensures SharedWall(p, n).at in a && Standing(a, SharedWall(p, n))
  {
    var w := SharedWall(p, n);
    assert {w.at, Beyond(w)} == {p, n};
    assert !IsVisited(a, n);
    ClearedWallsMember(a, w);
  }

  /** Carving from a visited tile `p` to an unvisited neighbour `n` keeps the
      tree count: one passage and one tile are added. */
  lemma CarveKeepsTree(a: Tiles, b: Tiles, p: Coord, n: Coord)
    requires IsVisited(a, p) && n in a && !a[n].visited && Adjacent(p, n)
    requires VisitsExactly(a, b, {n}) && ClearsExactly(a, b, {SharedWall(p, n)})
    requires PassagesJoinVisited(a) && TreeCount(a)
    ensures TreeCount(b)
  {
    WallToUnvisitedStands(a, p, n);
    ClearedOne(a, b, SharedWall(p, n));
    VisitedOne(a, b, n);
  }

  /** Knocking down one standing wall adds one passage. */
  lemma ClearedOne(a: Tiles, b: Tiles, w: Wall)
    requires ClearsExactly(a, b, {w}) && w.at in a && Standing(a, w)
    ensures |ClearedWalls(b)| == |ClearedWalls(a)| + 1
  {
    ClearedAfter(a, b, {w});
  }

  /** Visiting one unvisited tile adds one visited tile. */
  lemma VisitedOne(a: Tiles, b: Tiles, n: Coord)
    requires VisitsExactly(a, b, {n}) && n in a && !a[n].visited
    ensures |VisitedTiles(b)| == |VisitedTiles(a)| + 1
  {
    VisitedAfter(a, b, {n});
    assert n !in VisitedTiles(a);
  }

  /** ... and every passage still joins two visited tiles. */
  lemma CarveJoinsVisited(a: Tiles, b: Tiles, p: Coord, n: Coord)
    requires IsVisited(a, p) && n in a && Adjacent(p, n)
    requires VisitsExactly(a, b, {n}) && ClearsExactly(a, b, {SharedWall(p, n)})
    requires PassagesJoinVisited(a)
    ensures PassagesJoinVisited(b)
  {
    var w := SharedWall(p, n);
    assert {w.at, Beyond(w)} == {p, n};
    forall v | v in ClearedWalls(b)
      ensures IsVisited(b, v.at) && IsVisited(b, Beyond(v))
    {
      ClearedWallsMember(a, v);
      ClearedWallsMember(b, v);
      if v != w {
        assert v in ClearedWalls(a);
      }
    }
  }

  lemma AdvanceKeepsTree(s: Tracker, k: nat)
    requires s.pos in s.tiles && IsVisited(s.tiles, s.pos)
    requires k < |AccessibleNeighbors(s.tiles, s.pos)|
    requires PassagesJoinVisited(s.tiles) && TreeCount(s.tiles)
    ensures PassagesJoinVisited(Advance(s, k).tiles) && TreeCount(Advance(s, k).tiles)
  {
    var r := Advance(s, k);
    CarveKeepsTree(s.tiles, r.tiles, s.pos, r.pos);
    CarveJoinsVisited(s.tiles, r.tiles, s.pos, r.pos);
  }

  /** The step `find` evidently intends when it resumes: stand on `t` and push
      it again, with no wall knocked down. */
  function ResumeIntended(s: Tracker, t: Coord): (r: Tracker)
    requires t in s.tiles
    ensures r.pos == t && r.history == Add(s.history, t)
    ensures VisitsExactly(s.tiles, r.tiles, {t})
    ensures ClearsExactly(s.tiles, r.tiles, {})
  {
    Tracker(s.tiles[t := Visit(s.tiles[t])], t, Add(s.history, t))
  }

  /** `update` with the corrected resumption. */
  function UpdateIntended(s: Tracker, k: nat): (r: Tracker)
    requires s.pos in s.tiles
    requires Choices(s) != [] ==> k < |Choices(s)|
    ensures r.pos in r.tiles
  {
    if AccessibleNeighbors(s.tiles, s.pos) != [] then Advance(s, k)
    else
      match Backtrack(s.tiles, s.history)
      case Exhausted => s.(history := Empty())
      case ResumeAt(t, rest) =>
        var resumed := ResumeIntended(s.(history := rest), t);
        AccessibleStable(s.tiles, resumed.tiles, t);
        Advance(resumed, k)
  }

  /** The corrected step keeps the walk's invariant and the tree count. */
  lemma IntendedKeepsTree(s: Tracker, k: nat)
    requires Inv(s) && PassagesJoinVisited(s.tiles) && TreeCount(s.tiles)
    requires Choices(s) != [] ==> k < |Choices(s)|
    ensures var r := UpdateIntended(s, k);
      Inv(r) && PassagesJoinVisited(r.tiles) && TreeCount(r.tiles)
  {
    if AccessibleNeighbors(s.tiles, s.pos) != [] {
      AdvanceInv(s, k);
      AdvanceKeepsTree(s, k);
    } else {
      match Backtrack(s.tiles, s.history)
      case Exhausted =>
        ExhaustedInv(s);
      case ResumeAt(t, rest) =>
        IntendedResumeKeepsTree(s, k);
    }
  }

  /** Resuming without the extra `goto` wall leaves the tiles as they are and keeps the invariant. */
  lemma ResumedIntended(s: Tracker) returns (r: Tracker)
    requires Inv(s) && Backtrack(s.tiles, s.history).ResumeAt?
    ensures r == ResumeIntended(s.(history := Backtrack(s.tiles, s.history).rest), Backtrack(s.tiles, s.history).tile)
    ensures r.tiles == s.tiles && r.pos == Backtrack(s.tiles, s.history).tile && Inv(r)
  {
    var b := Backtrack(s.tiles, s.history);
    r := ResumeIntended(s.(history := b.rest), b.tile);
    assert s.history.items[|b.rest.items|] == b.tile;
    assert r.tiles == s.tiles;
    ResumeInv(s, r);
  }

  /** The backtracking case: resuming leaves the tiles as they are, so only the advance changes them. */
  lemma IntendedResumeKeepsTree(s: Tracker, k: nat)
    requires Inv(s) && PassagesJoinVisited(s.tiles) && TreeCount(s.tiles)
    requires AccessibleNeighbors(s.tiles, s.pos) == [] && Backtrack(s.tiles, s.history).ResumeAt?
    requires k < |Choices(s)|
    ensures var r := UpdateIntended(s, k);
      Inv(r) && PassagesJoinVisited(r.tiles) && TreeCount(r.tiles)
  {
    var resumed := ResumedIntended(s);
    AdvanceInv(resumed, k);
    AdvanceKeepsTree(resumed, k);
    assert UpdateIntended(s, k) == Advance(resumed, k);
  }

  /** A new maze has no passage and one visited tile. */
  lemma NewMazeTree(w: int, h: int)
    requires w > 0 && h > 0
    ensures PassagesJoinVisited(NewMaze(w, h).value.tiles) && TreeCount(NewMaze(w, h).value.tiles)
  {
    var t := NewMaze(w, h).value.tiles;
    forall v
      ensures v !in ClearedWalls(t)
    {
      ClearedWallsMember(t, v);
    }
    assert ClearedWalls(t) == {};
    assert VisitedTiles(t) == {Origin};
  }

  /** Repeated corrected updates, as `Run` does with `Update`. */
  function RunIntended(s: Tracker, ks: seq<nat>): (r: Option<Tracker>)
    requires s.pos in s.tiles
    ensures r.Some? ==> r.value.pos in r.value.tiles
    decreases |ks|
  {
    if |ks| == 0 then Some(s)
    else if Choices(s) != [] && ks[0] >= |Choices(s)| then None
    else RunIntended(UpdateIntended(s, ks[0]), ks[1..])
  }

  /** From a state that satisfies the walk's invariant and is tree-shaped,
      every state the corrected walk reaches has exactly one passage fewer
      than visited tiles, each passage joining two visited tiles. */
  lemma {:induction false} IntendedRunIsTree(s: Tracker, ks: seq<nat>)
    requires Inv(s) && PassagesJoinVisited(s.tiles) && TreeCount(s.tiles)
    requires RunIntended(s, ks).Some?
    ensures var r := RunIntended(s, ks).value;
      Inv(r) && PassagesJoinVisited(r.tiles) && TreeCount(r.tiles)
    decreases |ks|
  {
    if |ks| > 0 {
      IntendedKeepsTree(s, ks[0]);
      IntendedRunIsTree(UpdateIntended(s, ks[0]), ks[1..]);
    }
  }

  /** In particular from a new maze: every state the corrected walk reaches is tree-shaped. */
  lemma NewMazeRunIsTree(w: int, h: int, ks: seq<nat>)
    requires w > 0 && h > 0
    requires RunIntended(NewMaze(w, h).value, ks).Some?
    ensures var r := RunIntended(NewMaze(w, h).value, ks).value;
      PassagesJoinVisited(r.tiles) && TreeCount(r.tiles)
  {
    NewMazeInv(w, h);
    NewMazeTree(w, h);
    IntendedRunIsTree(NewMaze(w, h).value, ks);
  }

  /** The visited tiles are exactly `vs`. */
  predicate VisitedAre(tiles: Tiles, vs: set<Coord>)
  {
    forall c :: c in tiles ==> (tiles[c].visited <==> c in vs)
  }

  /** The two east walls the counterexample watches: (0,1)|(1,1) and (1,2)|(2,2). */
  const W1: Wall := Wall(Coord(0, 1), EastSide)
  const W2: Wall := Wall(Coord(1, 2), EastSide)

  /** The passages the walk's steps 5, 6 and 7 carve, between (1, 1) and
      (1, 2), (1, 2) and (0, 2), and (0, 2) and (0, 1). With the wall between
      (0, 1) and (1, 1) they close a cycle. */
  const P5: Wall := Wall(Coord(1, 1), SouthSide)
  const P6: Wall := Wall(Coord(0, 2), EastSide)
  const P7: Wall := Wall(Coord(0, 1), SouthSide)

  /* The walk below writes each visited set as a union of singletons and each
     history as a concatenation of one-element sequences, step by step. Step
     `i` then has exactly the shape `vs + {n}` and `items + [n]` that
     `WalkStep` ensures, so no step needs the solver to prove two set or
     sequence displays equal. */

  /** What the 3 by 3 walk keeps track of: the grid, the visited set `vs`
      (holding the position), the tree count, and the two watched walls up. */
  ghost predicate WalkState(s: Tracker, vs: set<Coord>)
  {
    && s.tiles.Keys == Cells(3, 3)
    && s.pos in s.tiles && s.pos in vs
    && VisitedAre(s.tiles, vs)
    && PassagesJoinVisited(s.tiles) && TreeCount(s.tiles)
    && s.tiles[W1.at].east && s.tiles[W2.at].east
  }

  /** `[d]` when `d` is a cell of the 3 by 3 grid outside `vs`, else `[]`. */
  function Free(d: Coord, vs: set<Coord>): seq<Coord>
  {
    if InRange(d, 3, 3) && d !in vs then [d] else []
  }

  /** Draw `k` at `c` with visited set `vs` moves the walk to `n`. */
  predicate Leads(c: Coord, vs: set<Coord>, k: nat, n: Coord)
  {
    k < |Around(c, vs)| && Around(c, vs)[k] == n
  }

  /** The free compass neighbours of `c` in the order north, east, south, west. */
  function Around(c: Coord, vs: set<Coord>): seq<Coord>
  {
    Free(North(c), vs) + Free(East(c), vs) + Free(South(c), vs) + Free(West(c), vs)
  }

  /** On the 3 by 3 grid with visited set `vs`, the accessible neighbours of a
      tile are its free compass neighbours. */
  lemma NeighboursOnGrid(tiles: Tiles, vs: set<Coord>, c: Coord)
    requires tiles.Keys == Cells(3, 3) && VisitedAre(tiles, vs) && c in tiles
    ensures AccessibleNeighbors(tiles, c) == Around(c, vs)
  {
    assert IsAccessible(Get(tiles, North(c))) <==> InRange(North(c), 3, 3) && North(c) !in vs;
    assert IsAccessible(Get(tiles, East(c))) <==> InRange(East(c), 3, 3) && East(c) !in vs;
    assert IsAccessible(Get(tiles, South(c))) <==> InRange(South(c), 3, 3) && South(c) !in vs;
    assert IsAccessible(Get(tiles, West(c))) <==> InRange(West(c), 3, 3) && West(c) !in vs;
    var a := Check([], tiles, North(c));
    var b := Check(a, tiles, East(c));
    var d := Check(b, tiles, South(c));
    assert b == Free(North(c), vs) + Free(East(c), vs);
    assert d == b + Free(South(c), vs);
  }

  /** One advancing step of the faithful walk that carves neither watched wall
      keeps what the walk tracks, with `n` added to the visited set. */
  lemma WalkAdvance(s: Tracker, k: nat, vs: set<Coord>, n: Coord)
    requires WalkState(s, vs)
    requires k < |AccessibleNeighbors(s.tiles, s.pos)| && AccessibleNeighbors(s.tiles, s.pos)[k] == n
    requires Adjacent(s.pos, n) && SharedWall(s.pos, n) != W1 && SharedWall(s.pos, n) != W2
    ensures WalkState(Advance(s, k), vs + {n}) && Advance(s, k).pos == n
  {
    AdvanceKeepsTree(s, k);
    AdvanceVisits(s, k, vs, n);
    AdvanceKeepsWatched(s, k, n);
  }

  lemma AdvanceVisits(s: Tracker, k: nat, vs: set<Coord>, n: Coord)
    requires s.pos in s.tiles && VisitedAre(s.tiles, vs)
    requires k < |AccessibleNeighbors(s.tiles, s.pos)| && AccessibleNeighbors(s.tiles, s.pos)[k] == n
    ensures Advance(s, k).tiles.Keys == s.tiles.Keys
    ensures VisitedAre(Advance(s, k).tiles, vs + {n})
  {
  }

  lemma AdvanceKeepsWatched(s: Tracker, k: nat, n: Coord)
    requires s.pos in s.tiles && W1.at in s.tiles && W2.at in s.tiles
    requires s.tiles[W1.at].east && s.tiles[W2.at].east
    requires k < |AccessibleNeighbors(s.tiles, s.pos)| && AccessibleNeighbors(s.tiles, s.pos)[k] == n
    requires Adjacent(s.pos, n) && SharedWall(s.pos, n) != W1 && SharedWall(s.pos, n) != W2
    ensures Advance(s, k).tiles[W1.at].east && Advance(s, k).tiles[W2.at].east
  {
  }

  /** The step from `c` to `n` crosses neither watched wall. */
  predicate Unwatched(c: Coord, n: Coord)
  {
    {W1.at, Beyond(W1)} != {c, n} && {W2.at, Beyond(W2)} != {c, n}
  }

  /** `w` is the wall on the edge between `c` and `n`. */
  predicate Ends(w: Wall, c: Coord, n: Coord)
  {
    {w.at, Beyond(w)} == {c, n}
  }

  /** The wall `w` is on the grid and down. */
  predicate Down(tiles: Tiles, w: Wall)
  {
    w.at in tiles && !Standing(tiles, w)
  }

  /** A wall is determined by the two tiles it separates. */
  lemma WallByEnds(c: Coord, n: Coord, w: Wall)
    requires Adjacent(c, n) && Ends(w, c, n)
    ensures w == SharedWall(c, n)
  {
    var v := SharedWall(c, n);
    assert {v.at, Beyond(v)} == {w.at, Beyond(w)};
  }

  /** An advance keeps every fallen wall down and knocks down one more. */
  lemma AdvanceDown(s: Tracker, k: nat)
    requires s.pos in s.tiles && k < |AccessibleNeighbors(s.tiles, s.pos)|
    ensures Down(Advance(s, k).tiles, SharedWall(s.pos, AccessibleNeighbors(s.tiles, s.pos)[k]))
    ensures forall v :: Down(s.tiles, v) ==> Down(Advance(s, k).tiles, v)
  {
    var n := AccessibleNeighbors(s.tiles, s.pos)[k];
    var w := SharedWall(s.pos, n);
    assert {w.at, Beyond(w)} == {s.pos, n};
  }

  /** ... and as an `update` it takes the first draw `k` of a run, knocking
      down the wall `w` between `c` and `n`; no fallen wall goes back up. */
  lemma WalkStep(s: Tracker, c: Coord, k: nat, vs: set<Coord>, n: Coord, ks: seq<nat>, w: Wall) returns (r: Tracker)
    requires WalkState(s, vs) && s.pos == c
    requires Leads(c, vs, k, n) && Unwatched(c, n) && Ends(w, c, n)
    requires |ks| > 0 && ks[0] == k
    ensures WalkState(r, vs + {n}) && r.pos == n
    ensures r.history.items == s.history.items + [n]
    ensures Down(r.tiles, w) && forall v :: Down(s.tiles, v) ==> Down(r.tiles, v)
    ensures Run(s, ks) == Run(r, ks[1..])
  {
    NeighboursOnGrid(s.tiles, vs, s.pos);
    assert Adjacent(c, n);
    var v := SharedWall(c, n);
    assert v != W1 && v != W2;
    WallByEnds(c, n, w);
    r := Advance(s, k);
    WalkAdvance(s, k, vs, n);
    AdvanceDown(s, k);
    RunAdvance(s, ks);
  }

  /** Runs compose: reaching `p` after `i` draws and `s` from `p` with draw `i`
      reaches `s` after `i + 1`. */
  lemma RunLink(s0: Tracker, p: Tracker, s: Tracker, ks: seq<nat>, i: nat)
    requires s0.pos in s0.tiles && p.pos in p.tiles && s.pos in s.tiles && i < |ks|
    requires Run(s0, ks) == Run(p, ks[i..])
    requires Run(p, ks[i..]) == Run(s, ks[i..][1..])
    ensures Run(s0, ks) == Run(s, ks[i + 1..])
  {
    assert ks[i..][1..] == ks[i + 1..];
  }

  /** A run whose first draw is taken by an advancing step. */
  lemma RunAdvance(s: Tracker, ks: seq<nat>)
    requires s.pos in s.tiles && |ks| > 0 && ks[0] < |AccessibleNeighbors(s.tiles, s.pos)|
    ensures Run(s, ks) == Run(Update(s, ks[0]), ks[1..])
  {
    assert Choices(s) == AccessibleNeighbors(s.tiles, s.pos);
  }

  /** The draws that walk a 3 by 3 grid through (0,0) (1,0) (2,0) (2,1) (1,1)
      (1,2) (0,2) and (0,1), that is `ks == [0, 0, 0, 1, 0, 1, 0]`, stated
      element by element. */
  predicate WalkDraws(ks: seq<nat>)
  {
    && |ks| == 7
    && ks[0] == 0 && ks[1] == 0 && ks[2] == 0 && ks[3] == 1
    && ks[4] == 0 && ks[5] == 1 && ks[6] == 0
  }

  /** A tracker as `Maze.__init__` leaves it on a 3 by 3 grid, as far as the walk looks. */
  ghost predicate Start(s: Tracker)
  {
    WalkState(s, {Coord(0, 0)}) && s.pos == Coord(0, 0) && s.history.items == [Coord(0, 0)]
  }

  /** A new 3 by 3 maze is such a start. */
  lemma NewMazeStarts()
    ensures NewMaze(3, 3).Success? && Start(NewMaze(3, 3).value)
  {
    NewMazeTree(3, 3);
  }

  /** The walls on the walk's seven edges, step by step. */
  lemma Edges()
    ensures Ends(Wall(Coord(0, 0), EastSide), Coord(0, 0), Coord(1, 0))
    ensures Ends(Wall(Coord(1, 0), EastSide), Coord(1, 0), Coord(2, 0))
    ensures Ends(Wall(Coord(2, 0), SouthSide), Coord(2, 0), Coord(2, 1))
    ensures Ends(Wall(Coord(1, 1), EastSide), Coord(2, 1), Coord(1, 1))
    ensures Ends(P5, Coord(1, 1), Coord(1, 2))
    ensures Ends(P6, Coord(1, 2), Coord(0, 2))
    ensures Ends(P7, Coord(0, 2), Coord(0, 1))
  {
  }

  /** Step 1 of the walk: draw 0 at (0, 0) leads to (1, 0) across an unwatched wall. */
  lemma Move1()
    ensures Leads(Coord(0, 0), {Coord(0, 0)}, 0, Coord(1, 0))
    ensures Unwatched(Coord(0, 0), Coord(1, 0))
  {
  }

  /** Step 2 of the walk: draw 0 at (1, 0) leads to (2, 0) across an unwatched wall. */
  lemma Move2()
    ensures Leads(Coord(1, 0), {Coord(0, 0)} + {Coord(1, 0)}, 0, Coord(2, 0))
    ensures Unwatched(Coord(1, 0), Coord(2, 0))
  {
  }

  /** Step 3 of the walk: draw 0 at (2, 0) leads to (2, 1) across an unwatched wall. */
  lemma Move3()
    ensures Leads(Coord(2, 0), {Coord(0, 0)} + {Coord(1, 0)} + {Coord(2, 0)}, 0, Coord(2, 1))
    ensures Unwatched(Coord(2, 0), Coord(2, 1))
  {
  }

  /** Step 4 of the walk: draw 1 at (2, 1) leads to (1, 1) across an unwatched wall. */
  lemma Move4()
    ensures Leads(Coord(2, 1), {Coord(0, 0)} + {Coord(1, 0)} + {Coord(2, 0)} + {Coord(2, 1)}, 1, Coord(1, 1))
    ensures Unwatched(Coord(2, 1), Coord(1, 1))
  {
  }

  /** Step 5 of the walk: draw 0 at (1, 1) leads to (1, 2) across an unwatched wall. */
  lemma Move5()
    ensures Leads(Coord(1, 1), {Coord(0, 0)} + {Coord(1, 0)} + {Coord(2, 0)} + {Coord(2, 1)} + {Coord(1, 1)}, 0, Coord(1, 2))
    ensures Unwatched(Coord(1, 1), Coord(1, 2))
  {
  }

  /** Step 6 of the walk: draw 1 at (1, 2) leads to (0, 2) across an unwatched wall. */
  lemma Move6()
    ensures Leads(Coord(1, 2), {Coord(0, 0)} + {Coord(1, 0)} + {Coord(2, 0)} + {Coord(2, 1)} + {Coord(1, 1)} + {Coord(1, 2)}, 1, Coord(0, 2))
    ensures Unwatched(Coord(1, 2), Coord(0, 2))
  {
  }

  /** Step 7 of the walk: draw 0 at (0, 2) leads to (0, 1) across an unwatched wall. */
  lemma Move7()
    ensures Leads(Coord(0, 2), {Coord(0, 0)} + {Coord(1, 0)} + {Coord(2, 0)} + {Coord(2, 1)} + {Coord(1, 1)} + {Coord(1, 2)} + {Coord(0, 2)}, 0, Coord(0, 1))
    ensures Unwatched(Coord(0, 2), Coord(0, 1))
  {
  }

  /** Step 1 of the walk, to (1, 0). */
  lemma Walk1(s0: Tracker, ks: seq<nat>) returns (s: Tracker)
    requires Start(s0) && WalkDraws(ks)
    ensures WalkState(s, {Coord(0, 0)} + {Coord(1, 0)})
    ensures s.pos == Coord(1, 0) && s.history.items == [Coord(0, 0)] + [Coord(1, 0)]
    ensures Run(s0, ks) == Run(s, ks[1..])
  {
    Move1();
    Edges();
    s := WalkStep(s0, Coord(0, 0), 0, {Coord(0, 0)}, Coord(1, 0), ks, Wall(Coord(0, 0), EastSide));
  }

  /** Step 2 of the walk, to (2, 0). */
  lemma Walk2(s0: Tracker, ks: seq<nat>) returns (s: Tracker)
    requires Start(s0) && WalkDraws(ks)
    ensures WalkState(s, {Coord(0, 0)} + {Coord(1, 0)} + {Coord(2, 0)})
    ensures s.pos == Coord(2, 0) && s.history.items == [Coord(0, 0)] + [Coord(1, 0)] + [Coord(2, 0)]
    ensures Run(s0, ks) == Run(s, ks[2..])
  {
    Move2();
    Edges();
    var p := Walk1(s0, ks);
    s := WalkStep(p, Coord(1, 0), 0, {Coord(0, 0)} + {Coord(1, 0)}, Coord(2, 0), ks[1..], Wall(Coord(1, 0), EastSide));
    RunLink(s0, p, s, ks, 1);
  }

  /** Step 3 of the walk, to (2, 1). */
  lemma Walk3(s0: Tracker, ks: seq<nat>) returns (s: Tracker)
    requires Start(s0) && WalkDraws(ks)
    ensures WalkState(s, {Coord(0, 0)} + {Coord(1, 0)} + {Coord(2, 0)} + {Coord(2, 1)})
    ensures s.pos == Coord(2, 1) && s.history.items == [Coord(0, 0)] + [Coord(1, 0)] + [Coord(2, 0)] + [Coord(2, 1)]
    ensures Run(s0, ks) == Run(s, ks[3..])
  {
    Move3();
    Edges();
    var p := Walk2(s0, ks);
    s := WalkStep(p, Coord(2, 0), 0, {Coord(0, 0)} + {Coord(1, 0)} + {Coord(2, 0)}, Coord(2, 1), ks[2..], Wall(Coord(2, 0), SouthSide));
    RunLink(s0, p, s, ks, 2);
  }

  /** Step 4 of the walk, to (1, 1). */
  lemma Walk4(s0: Tracker, ks: seq<nat>) returns (s: Tracker)
    requires Start(s0) && WalkDraws(ks)
    ensures WalkState(s, {Coord(0, 0)} + {Coord(1, 0)} + {Coord(2, 0)} + {Coord(2, 1)} + {Coord(1, 1)})
    ensures s.pos == Coord(1, 1) && s.history.items == [Coord(0, 0)] + [Coord(1, 0)] + [Coord(2, 0)] + [Coord(2, 1)] + [Coord(1, 1)]
    ensures Run(s0, ks) == Run(s, ks[4..])
  {
    Move4();
    Edges();
    var p := Walk3(s0, ks);
    s := WalkStep(p, Coord(2, 1), 1, {Coord(0, 0)} + {Coord(1, 0)} + {Coord(2, 0)} + {Coord(2, 1)}, Coord(1, 1), ks[3..], Wall(Coord(1, 1), EastSide));
    RunLink(s0, p, s, ks, 3);
  }

  /** Step 5 of the walk, to (1, 2). */
  lemma Walk5(s0: Tracker, ks: seq<nat>) returns (s: Tracker)
    requires Start(s0) && WalkDraws(ks)
    ensures WalkState(s, {Coord(0, 0)} + {Coord(1, 0)} + {Coord(2, 0)} + {Coord(2, 1)} + {Coord(1, 1)} + {Coord(1, 2)})
    ensures s.pos == Coord(1, 2) && s.history.items == [Coord(0, 0)] + [Coord(1, 0)] + [Coord(2, 0)] + [Coord(2, 1)] + [Coord(1, 1)] + [Coord(1, 2)]
    ensures Down(s.tiles, P5)
    ensures Run(s0, ks) == Run(s, ks[5..])
  {
    Move5();
    Edges();
    var p := Walk4(s0, ks);
    s := WalkStep(p, Coord(1, 1), 0, {Coord(0, 0)} + {Coord(1, 0)} + {Coord(2, 0)} + {Coord(2, 1)} + {Coord(1, 1)}, Coord(1, 2), ks[4..], P5);
    RunLink(s0, p, s, ks, 4);
  }

  /** Step 6 of the walk, to (0, 2). */
  lemma Walk6(s0: Tracker, ks: seq<nat>) returns (s: Tracker)
    requires Start(s0) && WalkDraws(ks)
    ensures WalkState(s, {Coord(0, 0)} + {Coord(1, 0)} + {Coord(2, 0)} + {Coord(2, 1)} + {Coord(1, 1)} + {Coord(1, 2)} + {Coord(0, 2)})
    ensures s.pos == Coord(0, 2) && s.history.items == [Coord(0, 0)] + [Coord(1, 0)] + [Coord(2, 0)] + [Coord(2, 1)] + [Coord(1, 1)] + [Coord(1, 2)] + [Coord(0, 2)]
    ensures Down(s.tiles, P5) && Down(s.tiles, P6)
    ensures Run(s0, ks) == Run(s, ks[6..])
  {
    Move6();
    Edges();
    var p := Walk5(s0, ks);
    s := WalkStep(p, Coord(1, 2), 1, {Coord(0, 0)} + {Coord(1, 0)} + {Coord(2, 0)} + {Coord(2, 1)} + {Coord(1, 1)} + {Coord(1, 2)}, Coord(0, 2), ks[5..], P6);
    RunLink(s0, p, s, ks, 5);
  }

  /** Step 7 of the walk, to (0, 1). */
  lemma Walk7(s0: Tracker, ks: seq<nat>) returns (s: Tracker)
    requires Start(s0) && WalkDraws(ks)
    ensures WalkState(s, {Coord(0, 0)} + {Coord(1, 0)} + {Coord(2, 0)} + {Coord(2, 1)} + {Coord(1, 1)} + {Coord(1, 2)} + {Coord(0, 2)} + {Coord(0, 1)})
    ensures s.pos == Coord(0, 1) && s.history.items == [Coord(0, 0)] + [Coord(1, 0)] + [Coord(2, 0)] + [Coord(2, 1)] + [Coord(1, 1)] + [Coord(1, 2)] + [Coord(0, 2)] + [Coord(0, 1)]
    ensures Down(s.tiles, P5) && Down(s.tiles, P6) && Down(s.tiles, P7)
    ensures Run(s0, ks) == Run(s, ks[7..])
  {
    Move7();
    Edges();
    var p := Walk6(s0, ks);
    s := WalkStep(p, Coord(0, 2), 0, {Coord(0, 0)} + {Coord(1, 0)} + {Coord(2, 0)} + {Coord(2, 1)} + {Coord(1, 1)} + {Coord(1, 2)} + {Coord(0, 2)}, Coord(0, 1), ks[6..], P7);
    RunLink(s0, p, s, ks, 6);
  }

  /** The seven draws end the run at (0, 1) with every tile but (2, 2) visited. */
  lemma WalkEnd(s0: Tracker, ks: seq<nat>) returns (s: Tracker)
    requires Start(s0) && WalkDraws(ks)
    ensures WalkState(s, {Coord(0, 0)} + {Coord(1, 0)} + {Coord(2, 0)} + {Coord(2, 1)} + {Coord(1, 1)} + {Coord(1, 2)} + {Coord(0, 2)} + {Coord(0, 1)})
    ensures s.pos == Coord(0, 1) && s.history.items == [Coord(0, 0)] + [Coord(1, 0)] + [Coord(2, 0)] + [Coord(2, 1)] + [Coord(1, 1)] + [Coord(1, 2)] + [Coord(0, 2)] + [Coord(0, 1)]
    ensures Down(s.tiles, P5) && Down(s.tiles, P6) && Down(s.tiles, P7)
    ensures Run(s0, ks) == Some(s)
  {
    s := Walk7(s0, ks);
    assert ks[7..] == [];
  }

  /** Knocking down two distinct standing walls adds two passages. */
  lemma ClearedTwo(a: Tiles, b: Tiles, w1: Wall, w2: Wall)
    requires w1 != w2 && ClearsExactly(a, b, {w1, w2})
    requires w1.at in a && Standing(a, w1) && w2.at in a && Standing(a, w2)
    ensures |ClearedWalls(b)| == |ClearedWalls(a)| + 2
  {
    ClearedAfter(a, b, {w1, w2});
    assert |{w1, w2}| == 2;
  }

  /** Visiting a visited tile and an unvisited one adds one visited tile. */
  lemma VisitedCount(a: Tiles, b: Tiles, t: Coord, n: Coord)
    requires VisitsExactly(a, b, {t, n}) && IsVisited(a, t) && n in a && !a[n].visited
    ensures |VisitedTiles(b)| == |VisitedTiles(a)| + 1
  {
    VisitedAfter(a, b, {t, n});
    assert VisitedTiles(b) == VisitedTiles(a) + {n};
  }

  /** A step that knocks down two standing walls but visits only one new
      tile leaves one passage too many for a tree. */
  lemma TwoWallsOneTile(a: Tiles, b: Tiles, w1: Wall, w2: Wall, t: Coord, n: Coord)
    requires w1 != w2 && ClearsExactly(a, b, {w1, w2})
    requires w1.at in a && Standing(a, w1) && w2.at in a && Standing(a, w2)
    requires VisitsExactly(a, b, {t, n}) && IsVisited(a, t) && n in a && !a[n].visited
    requires TreeCount(a)
    ensures !TreeCount(b)
  {
    ClearedTwo(a, b, w1, w2);
    VisitedCount(a, b, t, n);
  }

  /** The walk ends in a dead end: every neighbour of (0, 1) is visited or off the grid. */
  lemma WalkEndsStuck(s: Tracker)
    requires s.tiles.Keys == Cells(3, 3) && VisitedAre(s.tiles, {Coord(0, 0)} + {Coord(1, 0)} + {Coord(2, 0)} + {Coord(2, 1)} + {Coord(1, 1)} + {Coord(1, 2)} + {Coord(0, 2)} + {Coord(0, 1)})
    requires s.pos == Coord(0, 1)
    ensures DeadEnd(s.tiles, s.pos)
  {
    assert s.tiles[Coord(0, 0)].visited && s.tiles[Coord(1, 1)].visited && s.tiles[Coord(0, 2)].visited;
    assert Coord(-1, 1) !in s.tiles;
  }

  /** A backtracking `update` whose resume tile `t` has the single accessible
      neighbour `n` knocks down the `goto` wall and the wall toward `n`, and
      visits `t` and `n`. */
  lemma ResumeStep(s: Tracker, t: Coord, n: Coord)
    requires s.pos in s.tiles && DeadEnd(s.tiles, s.pos)
    requires Backtrack(s.tiles, s.history).ResumeAt? && Backtrack(s.tiles, s.history).tile == t
    requires |AccessibleNeighbors(s.tiles, t)| == 1 && AccessibleNeighbors(s.tiles, t)[0] == n
    ensures GotoWall(s.pos, t).Some? && Adjacent(t, n)
    ensures ClearsExactly(s.tiles, Update(s, 0).tiles, {GotoWall(s.pos, t).value, SharedWall(t, n)})
    ensures VisitsExactly(s.tiles, Update(s, 0).tiles, {t, n})
  {
    BacktrackingUpdate(s, 0);
  }

  /** Going back from (0, 1) to (1, 2) knocks down the first watched wall;
      stepping on from (1, 2) to (2, 2) the second. */
  lemma ResumeWalls()
    ensures GotoWall(Coord(0, 1), Coord(1, 2)) == Some(W1)
    ensures Adjacent(Coord(1, 2), Coord(2, 2)) && SharedWall(Coord(1, 2), Coord(2, 2)) == W2
  {
  }

  /** From the end of the walk, `update` resumes at (1, 2): its `goto` knocks
      down the wall between (0, 1) and (1, 1), and the advance the wall between
      (1, 2) and (2, 2), visiting (2, 2). */
  lemma UpdateAtWalkEnd(s: Tracker)
    requires s.tiles.Keys == Cells(3, 3) && VisitedAre(s.tiles, {Coord(0, 0)} + {Coord(1, 0)} + {Coord(2, 0)} + {Coord(2, 1)} + {Coord(1, 1)} + {Coord(1, 2)} + {Coord(0, 2)} + {Coord(0, 1)})
    requires s.pos == Coord(0, 1) && s.history.items == [Coord(0, 0)] + [Coord(1, 0)] + [Coord(2, 0)] + [Coord(2, 1)] + [Coord(1, 1)] + [Coord(1, 2)] + [Coord(0, 2)] + [Coord(0, 1)]
    ensures s.pos in s.tiles
    ensures ClearsExactly(s.tiles, Update(s, 0).tiles, {W1, W2})
    ensures VisitsExactly(s.tiles, Update(s, 0).tiles, {Coord(1, 2), Coord(2, 2)})
  {
    WalkEndsStuck(s);
    WalkEndNeighbours(s);
    BacktrackFromWalkEnd(s);
    ResumeStep(s, Coord(1, 2), Coord(2, 2));
    ResumeWalls();
  }

  /** At the end of the walk (0, 1) is a dead end and the passages form a
      tree; the next `update` knocks down the still standing east wall of
      (0, 1) and the tree count is lost. */
  lemma CarveAtWalkEnd(s: Tracker)
    requires WalkState(s, {Coord(0, 0)} + {Coord(1, 0)} + {Coord(2, 0)} + {Coord(2, 1)} + {Coord(1, 1)} + {Coord(1, 2)} + {Coord(0, 2)} + {Coord(0, 1)})
    requires s.pos == Coord(0, 1) && s.history.items == [Coord(0, 0)] + [Coord(1, 0)] + [Coord(2, 0)] + [Coord(2, 1)] + [Coord(1, 1)] + [Coord(1, 2)] + [Coord(0, 2)] + [Coord(0, 1)]
    ensures DeadEnd(s.tiles, s.pos) && TreeCount(s.tiles) && s.tiles[Coord(0, 1)].east
    ensures !Update(s, 0).tiles[Coord(0, 1)].east && !TreeCount(Update(s, 0).tiles)
  {
    WalkEndsStuck(s);
    UpdateAtWalkEnd(s);
    TwoWallsOneTile(s.tiles, Update(s, 0).tiles, W1, W2, Coord(1, 2), Coord(2, 2));
  }

  /** The walls the walk's last three steps knocked down, read off the tiles:
      passages join (0, 1), (0, 2), (1, 2) and (1, 1) in a row. */
  lemma PathDown(tiles: Tiles)
    requires Down(tiles, P5) && Down(tiles, P6) && Down(tiles, P7)
    ensures Coord(1, 1) in tiles && Coord(0, 2) in tiles && Coord(0, 1) in tiles
    ensures !tiles[Coord(1, 1)].south && !tiles[Coord(0, 2)].east && !tiles[Coord(0, 1)].south
  {
  }

  /** On the 3 by 3 maze the draws 0, 0, 0, 1, 0, 1, 0 lead the faithful run
      to a state whose passages form a tree, among them the path (0, 1), (0, 2),
      (1, 2), (1, 1); the very next `update` knocks down the wall between (0, 1)
      and (1, 1), closing a cycle, so the passages stop being a tree. */
  lemma SpuriousCarveCounterexample(s0: Tracker, ks: seq<nat>) returns (s: Tracker)
    requires Start(s0) && WalkDraws(ks)
    ensures s.pos == Coord(0, 1) && s.pos in s.tiles
    ensures DeadEnd(s.tiles, s.pos) && TreeCount(s.tiles) && s.tiles[Coord(0, 1)].east
    ensures !Update(s, 0).tiles[Coord(0, 1)].east && !TreeCount(Update(s, 0).tiles)
    ensures Coord(1, 1) in s.tiles && Coord(0, 2) in s.tiles
    ensures !s.tiles[Coord(1, 1)].south && !s.tiles[Coord(0, 2)].east && !s.tiles[Coord(0, 1)].south
    ensures Run(s0, ks) == Some(s)
  {
    s := WalkEnd(s0, ks);
    CarveAtWalkEnd(s);
    PathDown(s.tiles);
  }

  /** At the end of the walk, `find` pops (0, 1) and (0, 2), both dead ends,
      and resumes at (1, 2), which is not one. */
  lemma BacktrackFromWalkEnd(s: Tracker)
    requires s.history.items == [Coord(0, 0)] + [Coord(1, 0)] + [Coord(2, 0)] + [Coord(2, 1)] + [Coord(1, 1)] + [Coord(1, 2)] + [Coord(0, 2)] + [Coord(0, 1)]
    requires !DeadEnd(s.tiles, Coord(1, 2)) && DeadEnd(s.tiles, Coord(0, 2)) && DeadEnd(s.tiles, Coord(0, 1))
    ensures Backtrack(s.tiles, s.history).ResumeAt? && Backtrack(s.tiles, s.history).tile == Coord(1, 2)
  {
    var h := s.history.items;
    assert |h| == 8 && h[5] == Coord(1, 2) && h[6] == Coord(0, 2) && h[7] == Coord(0, 1);
  }

  /** Around the end of the walk (0, 2) is a dead end too, and (2, 2) is the
      only accessible neighbour of (1, 2). */
  lemma WalkEndNeighbours(s: Tracker)
    requires s.tiles.Keys == Cells(3, 3) && VisitedAre(s.tiles, {Coord(0, 0)} + {Coord(1, 0)} + {Coord(2, 0)} + {Coord(2, 1)} + {Coord(1, 1)} + {Coord(1, 2)} + {Coord(0, 2)} + {Coord(0, 1)})
    ensures DeadEnd(s.tiles, Coord(0, 2))
    ensures |AccessibleNeighbors(s.tiles, Coord(1, 2))| == 1 && AccessibleNeighbors(s.tiles, Coord(1, 2))[0] == Coord(2, 2)
    ensures !DeadEnd(s.tiles, Coord(1, 2))
  {
    assert s.tiles[Coord(0, 1)].visited && s.tiles[Coord(1, 2)].visited && !s.tiles[Coord(2, 2)].visited;
    assert s.tiles[Coord(0, 2)].visited && s.tiles[Coord(1, 1)].visited && Coord(1, 3) !in s.tiles;
    assert Coord(-1, 2) !in s.tiles && Coord(0, 3) !in s.tiles;
  }
}
