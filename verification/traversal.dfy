/** What the walk keeps true from one `update` to the next, and where it ends:
    every tile visited, history empty, and `update` doing nothing more. */
module Traversal {
  import opened Results
  import opened Stacks
  import opened Grid
  import opened Tracker

  /** Every tile in history is a visited tile. */
  ghost predicate HistoryVisited(s: Tracker)
  {
    forall i :: 0 <= i < |s.history.items| ==>
      s.history.items[i] in s.tiles && s.tiles[s.history.items[i]].visited
  }

  /** No tile is in history twice. */
  ghost predicate HistoryDistinct(s: Tracker)
  {
    forall i, j :: 0 <= i < j < |s.history.items| ==> s.history.items[i] != s.history.items[j]
  }

  /** While history is non-empty its top is where the tracker stands. */
  ghost predicate TopIsPosition(s: Tracker)
  {
    |s.history.items| > 0 ==> s.history.items[|s.history.items| - 1] == s.pos
  }

  /** A visited tile that has left history can never be resumed from. */
  ghost predicate FinishedAreDeadEnds(s: Tracker)
  {
    forall c {:trigger IsVisited(s.tiles, c)} ::
      IsVisited(s.tiles, c) && c !in s.history.items ==> DeadEnd(s.tiles, c)
  }

  ghost predicate Inv(s: Tracker)
  {
    && Origin in s.tiles && s.tiles[Origin].visited
    && s.pos in s.tiles && s.tiles[s.pos].visited
    && HistoryVisited(s)
    && HistoryDistinct(s)
    && TopIsPosition(s)
    && FinishedAreDeadEnds(s)
  }

  /** A dead end stays one: tiles are only ever marked visited. */
  lemma DeadEndStays(a: Tiles, b: Tiles, c: Coord)
    requires VisitedGrows(a, b)
    requires DeadEnd(a, c)
    ensures DeadEnd(b, c)
  {
  }

  /** A new maze satisfies the invariant. */
  lemma NewMazeInv(w: int, h: int)
    requires w > 0 && h > 0
    ensures NewMaze(w, h).Success?
    ensures Inv(NewMaze(w, h).value)
    ensures NewMaze(w, h).value.tiles.Keys == Cells(w, h)
  {
    var s := NewMaze(w, h).value;
    assert s.history.items[0] == Origin;
    assert forall c :: c in s.tiles && s.tiles[c].visited ==> c in s.history.items;
  }

  lemma AdvanceInv(s: Tracker, k: nat)
    requires Inv(s)
    requires k < |AccessibleNeighbors(s.tiles, s.pos)|
    ensures Inv(Advance(s, k))
  {
    var r := Advance(s, k);
    var n := r.pos;
    ExactChangesAreMonotone(s.tiles, r.tiles, {SharedWall(s.pos, n)}, {n});
    assert r.history.items == s.history.items + [n];
    forall i | 0 <= i < |s.history.items|
      ensures s.history.items[i] != n
    {
      assert s.tiles[s.history.items[i]].visited;
    }
    forall c | IsVisited(r.tiles, c) && c !in r.history.items
      ensures DeadEnd(r.tiles, c)
    {
      assert c != n && c !in s.history.items && IsVisited(s.tiles, c);
      DeadEndStays(s.tiles, r.tiles, c);
    }
  }

  /** History ran out: every tile it held was a dead end. */
  lemma ExhaustedInv(s: Tracker)
    requires Inv(s)
    requires Backtrack(s.tiles, s.history).Exhausted?
    ensures Inv(s.(history := Empty()))
  {
    forall c | IsVisited(s.tiles, c) && c in s.history.items
      ensures DeadEnd(s.tiles, c)
    {
      var i :| 0 <= i < |s.history.items| && s.history.items[i] == c;
    }
  }

  /** Any resumption that puts the tracker on the resumed tile, with the popped
      entries gone, and changes no visited flag but that tile's keeps the invariant. */
  lemma ResumeInv(s: Tracker, r: Tracker)
    requires Inv(s)
    requires Backtrack(s.tiles, s.history).ResumeAt?
    requires r.pos == Backtrack(s.tiles, s.history).tile
    requires r.history.items == Backtrack(s.tiles, s.history).rest.items + [r.pos]
    requires VisitsExactly(s.tiles, r.tiles, {r.pos})
    ensures Inv(r)
  {
    var b := Backtrack(s.tiles, s.history);
    var m := |b.rest.items|;
    PrefixThenNext(s.history.items, m, b.rest.items, b.tile);
    PrefixHistory(s, r, m);
    ResumeFinished(s, r, b, m);
  }

  /** A prefix of `h` followed by the element after it is the longer prefix. */
  lemma PrefixThenNext<T>(h: seq<T>, m: nat, rest: seq<T>, t: T)
    requires m < |h| && h[..m] == rest && h[m] == t
    ensures rest + [t] == h[..m + 1]
  {
    assert h[..m + 1] == h[..m] + [h[m]];
  }

  /** Cutting history down to a non-empty prefix keeps what the invariant says of history. */
  lemma PrefixHistory(s: Tracker, r: Tracker, m: nat)
    requires HistoryVisited(s) && HistoryDistinct(s)
    requires m < |s.history.items|
    requires r.history.items == s.history.items[..m + 1]
    requires r.pos == s.history.items[m]
    requires VisitedGrows(s.tiles, r.tiles)
    ensures HistoryVisited(r) && HistoryDistinct(r) && TopIsPosition(r)
    ensures IsVisited(r.tiles, r.pos)
  {
    assert IsVisited(s.tiles, s.history.items[m]);
  }

  lemma ResumeFinished(s: Tracker, r: Tracker, b: Resume, m: nat)
    requires FinishedAreDeadEnds(s)
    requires b == Backtrack(s.tiles, s.history) && b.ResumeAt? && m == |b.rest.items|
    requires r.pos == b.tile
    requires r.history.items == s.history.items[..m + 1]
    requires VisitedGrows(s.tiles, r.tiles)
    requires forall c :: c in s.tiles && c != r.pos ==> r.tiles[c].visited == s.tiles[c].visited
    ensures FinishedAreDeadEnds(r)
  {
    var h := s.history.items;
    forall c | IsVisited(r.tiles, c) && c !in r.history.items
      ensures DeadEnd(r.tiles, c)
    {
      assert c != r.pos by { assert r.history.items[m] == r.pos; }
      assert IsVisited(s.tiles, c);
      if c in h {
        var i :| 0 <= i < |h| && h[i] == c;
        assert i > m;
      }
      DeadEndStays(s.tiles, r.tiles, c);
    }
  }

  /** Every `update` keeps the invariant. */
  lemma UpdateInv(s: Tracker, k: nat)
    requires Inv(s)
    requires Choices(s) != [] ==> k < |Choices(s)|
    ensures Inv(Update(s, k))
  {
    if AccessibleNeighbors(s.tiles, s.pos) != [] {
      AdvanceInv(s, k);
    } else {
      match Backtrack(s.tiles, s.history)
      case Exhausted => ExhaustedInv(s);
      case ResumeAt(t, rest) =>
        var resumed := Goto(s.(history := rest), t);
        ResumeInv(s, resumed);
        AccessibleStable(s.tiles, resumed.tiles, t);
        AdvanceInv(resumed, k);
    }
  }

  /** The unvisited tiles. */
  ghost function Unvisited(tiles: Tiles): set<Coord>
  {
    set c | c in tiles && !tiles[c].visited
  }

  lemma UnvisitedAfter(a: Tiles, b: Tiles, vs: set<Coord>)
    requires VisitsExactly(a, b, vs)
    ensures Unvisited(b) == Unvisited(a) - vs
  {
  }

  /** Visiting one unvisited tile leaves one fewer unvisited tile. */
  lemma VisitOneMore(a: Tiles, b: Tiles, n: Coord)
    requires VisitsExactly(a, b, {n})
    requires n in a && !a[n].visited
    ensures |Unvisited(b)| + 1 == |Unvisited(a)|
  {
    UnvisitedAfter(a, b, {n});
    assert n in Unvisited(a);
  }

  /** Each `update` on a live tracker either visits exactly one new tile and
      keeps history non-empty, or empties history and changes nothing else. */
  lemma UpdateProgress(s: Tracker, k: nat)
    requires Inv(s)
    requires |s.history.items| > 0
    requires Choices(s) != [] ==> k < |Choices(s)|
    ensures var r := Update(s, k);
      || (|r.history.items| > 0 && |Unvisited(r.tiles)| + 1 == |Unvisited(s.tiles)|)
      || (|r.history.items| == 0 && r.tiles == s.tiles && r.pos == s.pos)
  {
    if AccessibleNeighbors(s.tiles, s.pos) != [] {
      var r := Advance(s, k);
      VisitOneMore(s.tiles, r.tiles, r.pos);
    } else {
      match Backtrack(s.tiles, s.history)
      case Exhausted =>
      case ResumeAt(t, rest) =>
        var resumed := Goto(s.(history := rest), t);
        AccessibleStable(s.tiles, resumed.tiles, t);
        ResumeKeepsUnvisited(s, resumed);
        var r := Advance(resumed, k);
        VisitOneMore(resumed.tiles, r.tiles, r.pos);
    }
  }

  /** The tile `find` resumes at is already visited, so resuming visits nothing new. */
  lemma ResumeKeepsUnvisited(s: Tracker, r: Tracker)
    requires HistoryVisited(s)
    requires Backtrack(s.tiles, s.history).ResumeAt?
    requires r.pos == Backtrack(s.tiles, s.history).tile
    requires VisitsExactly(s.tiles, r.tiles, {r.pos})
    ensures Unvisited(r.tiles) == Unvisited(s.tiles)
  {
    var m := |Backtrack(s.tiles, s.history).rest.items|;
    assert s.history.items[m] == r.pos;
    UnvisitedAfter(s.tiles, r.tiles, {r.pos});
  }

  /** Once history is empty, `update` finds nothing to draw from and changes nothing. */
  lemma UpdateIdle(s: Tracker, k: nat)
    requires Inv(s)
    requires |s.history.items| == 0
    ensures Choices(s) == []
    ensures Update(s, k) == s
  {
    assert s.pos !in s.history.items && IsVisited(s.tiles, s.pos);
  }

  /** Walking north from `c` to the top row and then west to the origin, every
      tile passed is visited: a visited dead end has only visited neighbours. */
  lemma {:induction false} VisitedFromOrigin(tiles: Tiles, w: int, h: int, c: Coord)
    requires tiles.Keys == Cells(w, h)
    requires Origin in tiles && tiles[Origin].visited
    requires forall d {:trigger IsVisited(tiles, d)} :: IsVisited(tiles, d) ==> DeadEnd(tiles, d)
    requires InRange(c, w, h)
    ensures tiles[c].visited
    decreases c.x + c.y
  {
    if c == Origin {
    } else if c.y > 0 {
      var p := North(c);
      VisitedFromOrigin(tiles, w, h, p);
      assert IsVisited(tiles, p) && c == South(p);
    } else {
      var p := West(c);
      VisitedFromOrigin(tiles, w, h, p);
      assert IsVisited(tiles, p) && c == East(p);
    }
  }

  /** Coverage: when history runs out, every tile of the grid is visited. */
  lemma DoneCoversGrid(s: Tracker, w: int, h: int)
    requires Inv(s)
    requires s.tiles.Keys == Cells(w, h)
    requires |s.history.items| == 0
    ensures forall c :: c in s.tiles ==> s.tiles[c].visited
  {
    forall c | c in s.tiles
      ensures s.tiles[c].visited
    {
      VisitedFromOrigin(s.tiles, w, h, c);
    }
  }

  /** An advancing `update`: the `k`-th accessible neighbour, previously
      unvisited, alone becomes visited, is pushed and becomes the position;
      the single wall between the two tiles is the only one to fall. */
  lemma AdvancingUpdate(s: Tracker, k: nat)
    requires s.pos in s.tiles
    requires !DeadEnd(s.tiles, s.pos)
    requires k < |Choices(s)|
    ensures var n := AccessibleNeighbors(s.tiles, s.pos)[k];
      var r := Update(s, k);
      && Adjacent(s.pos, n) && n in s.tiles && !s.tiles[n].visited
      && r.pos == n
      && r.history.items == s.history.items + [n]
      && VisitsExactly(s.tiles, r.tiles, {n})
      && ClearsExactly(s.tiles, r.tiles, {SharedWall(s.pos, n)})
  {
  }

  /** `find` when every history entry is a dead end: it pops them all, stops on
      `IndexError`, and nothing else changes. */
  lemma FindExhausted(s: Tracker, k: nat)
    requires s.pos in s.tiles && Backtrack(s.tiles, s.history).Exhausted?
    ensures Find(s, k) == s.(history := Empty())
  {
  }

  /** An `update` at a dead end whose history holds only dead ends empties
      history and changes nothing else. */
  lemma ExhaustedUpdate(s: Tracker, k: nat)
    requires s.pos in s.tiles && DeadEnd(s.tiles, s.pos)
    requires Backtrack(s.tiles, s.history).Exhausted?
    ensures Choices(s) == []
    ensures Update(s, k) == s.(history := Empty())
  {
    FindExhausted(s, k);
  }

  /** Once `find` has popped to a tile with an accessible neighbour, it is the
      advance from that tile after `goto` it, and the `goto` leaves the
      tile's accessible neighbours as they were. */
  lemma FindResumes(s: Tracker, k: nat)
    requires s.pos in s.tiles && Backtrack(s.tiles, s.history).ResumeAt?
    requires k < |ResumeChoices(s)|
    ensures var b := Backtrack(s.tiles, s.history);
      var resumed := Goto(s.(history := b.rest), b.tile);
      && AccessibleNeighbors(resumed.tiles, b.tile) == AccessibleNeighbors(s.tiles, b.tile)
      && Find(s, k) == Advance(resumed, k)
  {
    var b := Backtrack(s.tiles, s.history);
    AccessibleStable(s.tiles, Goto(s.(history := b.rest), b.tile).tiles, b.tile);
  }

  /** A backtracking `update`: `find` resumes at the topmost history tile `t`
      that has an accessible neighbour and advances from it to `n`. The cleared
      flags are exactly the wall between `t` and `n` and the wall the `goto(t)`
      made from the dead end selects by comparing the dead end with `t`; that
      `goto` wall may already be down. */
  lemma BacktrackingUpdate(s: Tracker, k: nat)
    requires s.pos in s.tiles
    requires DeadEnd(s.tiles, s.pos)
    requires Backtrack(s.tiles, s.history).ResumeAt?
    requires k < |Choices(s)|
    ensures var b := Backtrack(s.tiles, s.history);
      var n := AccessibleNeighbors(s.tiles, b.tile)[k];
      var r := Update(s, k);
      && b.tile != s.pos
      && Adjacent(b.tile, n) && n in s.tiles && !s.tiles[n].visited
      && r.pos == n
      && r.history.items == b.rest.items + [b.tile, n]
      && VisitsExactly(s.tiles, r.tiles, {b.tile, n})
      && GotoWall(s.pos, b.tile).Some?
      && ClearsExactly(s.tiles, r.tiles, {GotoWall(s.pos, b.tile).value, SharedWall(b.tile, n)})
  {
    var b := Backtrack(s.tiles, s.history);
    assert AccessibleNeighbors(s.tiles, s.pos) == [];
    assert Update(s, k) == Find(s, k);
    BacktrackingFind(s, k);
    assert b.tile != s.pos;
    WallSetAdd(GotoWall(s.pos, b.tile), SharedWall(b.tile, AccessibleNeighbors(s.tiles, b.tile)[k]));
  }

  /** The `goto` wall, when there is one, together with one more wall. */
  lemma WallSetAdd(o: Option<Wall>, w: Wall)
    requires o.Some?
    ensures WallSet(o) + {w} == {o.value, w}
  {
  }

  /** `find` when history holds a tile to resume at: what `goto(t)` and the
      advance after it change, stated against the tracker before `find`. */
  lemma BacktrackingFind(s: Tracker, k: nat)
    requires s.pos in s.tiles && Backtrack(s.tiles, s.history).ResumeAt?
    requires k < |ResumeChoices(s)|
    ensures var b := Backtrack(s.tiles, s.history);
      var n := AccessibleNeighbors(s.tiles, b.tile)[k];
      var r := Find(s, k);
      && Adjacent(b.tile, n) && n in s.tiles && !s.tiles[n].visited
      && r.pos == n
      && r.history.items == b.rest.items + [b.tile, n]
      && VisitsExactly(s.tiles, r.tiles, {b.tile, n})
      && ClearsExactly(s.tiles, r.tiles, WallSet(GotoWall(s.pos, b.tile)) + {SharedWall(b.tile, n)})
  {
    var b := Backtrack(s.tiles, s.history);
    FindResumes(s, k);
    GotoThenAdvance(s.(history := b.rest), b.tile, k);
  }

  /** `goto(t)` followed by an advance from `t`: the visited flags of `t` and
      the chosen neighbour `n` are set, the `goto` wall and the wall toward `n`
      fall, and history grows by `t` and `n`. */
  lemma GotoThenAdvance(q: Tracker, t: Coord, k: nat)
    requires q.pos in q.tiles && t in q.tiles
    requires k < |AccessibleNeighbors(q.tiles, t)|
    ensures var resumed := Goto(q, t);
      && AccessibleNeighbors(resumed.tiles, t) == AccessibleNeighbors(q.tiles, t)
      && var n := AccessibleNeighbors(q.tiles, t)[k];
         var r := Advance(resumed, k);
         && Adjacent(t, n) && n in q.tiles && !q.tiles[n].visited
         && r.pos == n
         && r.history.items == q.history.items + [t, n]
         && VisitsExactly(q.tiles, r.tiles, {t, n})
         && ClearsExactly(q.tiles, r.tiles, WallSet(GotoWall(q.pos, t)) + {SharedWall(t, n)})
  {
    var resumed := Goto(q, t);
    AccessibleStable(q.tiles, resumed.tiles, t);
    GotoAdvanceTiles(q, t, k);
  }

  /** The tile changes of `goto(t)` and the advance after it, composed. */
  lemma GotoAdvanceTiles(q: Tracker, t: Coord, k: nat)
    requires q.pos in q.tiles && t in q.tiles
    requires k < |AccessibleNeighbors(Goto(q, t).tiles, t)|
    ensures var r := Advance(Goto(q, t), k);
      && Adjacent(t, r.pos)
      && VisitsExactly(q.tiles, r.tiles, {t, r.pos})
      && ClearsExactly(q.tiles, r.tiles, WallSet(GotoWall(q.pos, t)) + {SharedWall(t, r.pos)})
  {
    var resumed := Goto(q, t);
    var r := Advance(resumed, k);
    VisitsCompose(q.tiles, resumed.tiles, r.tiles, {t}, {r.pos});
    assert {t} + {r.pos} == {t, r.pos};
    ClearsCompose(q.tiles, resumed.tiles, r.tiles, WallSet(GotoWall(q.pos, t)), {SharedWall(t, r.pos)});
  }

  /** A `goto` between two tiles of a rectangular grid never opens its outer border. */
  lemma GotoKeepsBorder(s: Tracker, t: Coord, w: int, h: int)
    requires s.tiles.Keys == Cells(w, h)
    requires s.pos in s.tiles && t in s.tiles
    requires BorderIntact(s.tiles)
    ensures BorderIntact(Goto(s, t).tiles)
  {
    var r := Goto(s, t);
    forall c | c in r.tiles
      ensures !r.tiles[c].east ==> East(c) in r.tiles
      ensures !r.tiles[c].south ==> South(c) in r.tiles
    {
      if !r.tiles[c].east && s.tiles[c].east {
        assert Wall(c, EastSide) in WallSet(GotoWall(s.pos, t));
        assert InRange(East(c), w, h);
      }
      if !r.tiles[c].south && s.tiles[c].south {
        assert Wall(c, SouthSide) in WallSet(GotoWall(s.pos, t));
        assert InRange(South(c), w, h);
      }
    }
  }

  /** No `update` ever knocks down a wall on the outer border of the maze. */
  lemma UpdateKeepsBorder(s: Tracker, k: nat, w: int, h: int)
    requires s.tiles.Keys == Cells(w, h)
    requires s.pos in s.tiles
    requires Choices(s) != [] ==> k < |Choices(s)|
    requires BorderIntact(s.tiles)
    ensures BorderIntact(Update(s, k).tiles)
  {
    var here := AccessibleNeighbors(s.tiles, s.pos);
    if here != [] {
      assert here[k] in here;
      GotoKeepsBorder(s, here[k], w, h);
    } else if Backtrack(s.tiles, s.history).ResumeAt? {
      FindKeepsBorder(s, k, w, h);
    }
  }

  /** ... in particular not the backtracking one, whose `goto` and advance both keep the border. */
  lemma FindKeepsBorder(s: Tracker, k: nat, w: int, h: int)
    requires s.tiles.Keys == Cells(w, h)
    requires s.pos in s.tiles && Backtrack(s.tiles, s.history).ResumeAt?
    requires ResumeChoices(s) != [] ==> k < |ResumeChoices(s)|
    requires BorderIntact(s.tiles)
    ensures BorderIntact(Find(s, k).tiles)
  {
    var b := Backtrack(s.tiles, s.history);
    var resumed := Goto(s.(history := b.rest), b.tile);
    GotoKeepsBorder(s.(history := b.rest), b.tile, w, h);
    AccessibleStable(s.tiles, resumed.tiles, b.tile);
    var next := AccessibleNeighbors(resumed.tiles, b.tile);
    assert next[k] in next;
    GotoKeepsBorder(resumed, next[k], w, h);
  }

  /** What is left to do: the unvisited tiles, plus one while history is non-empty. */
  ghost function Measure(s: Tracker): nat
  {
    |Unvisited(s.tiles)| + if |s.history.items| > 0 then 1 else 0
  }

  /** The application's loop, calling `update` until history runs out, with
      `pick(i)` standing for the `i`-th random draw. The result is the run of
      the draws `ks` from a new maze, one draw per `update` call. It stops after
      at most `w * h` updates with every tile visited, every border wall
      standing, and `update` no longer changing anything. */
  method Generate(w: int, h: int, pick: nat -> nat) returns (r: Result<Tracker, TrackerError>, steps: nat, ghost ks: seq<nat>)
    ensures r.Success? <==> w > 0 && h > 0
    ensures r.Success? ==>
      && |ks| == steps
      && Run(NewMaze(w, h).value, ks) == Some(r.value)
    ensures r.Success? ==>
      && r.value.tiles.Keys == Cells(w, h)
      && |r.value.history.items| == 0
      && r.value.pos in r.value.tiles
      && (forall c :: c in r.value.tiles ==> r.value.tiles[c].visited)
      && BorderIntact(r.value.tiles)
      && steps <= w * h
      && (forall k: nat :: Update(r.value, k) == r.value)
  {
    var g := BuildGrid(w, h);
    r := NewTracker(g);
    steps := 0;
    ks := [];
    if r.Failure? {
      return;
    }
    var s := r.value;
    ghost var s0 := s;
    assert s0 == NewMaze(w, h).value;
    NewMazeInv(w, h);
    UnvisitedAfter(g, s.tiles, {Origin});
    assert |Unvisited(g)| == |g| by {
      assert Unvisited(g) == g.Keys;
    }
    while |s.history.items| > 0
      invariant Inv(s) && s.tiles.Keys == Cells(w, h)
      invariant BorderIntact(s.tiles)
      invariant steps + Measure(s) <= w * h
      invariant |ks| == steps && Run(s0, ks) == Some(s)
      decreases Measure(s)
    {
      var choices := Choices(s);
      var k: nat := if |choices| == 0 then 0 else pick(steps) % |choices|;
      UpdateInv(s, k);
      UpdateProgress(s, k);
      UpdateKeepsBorder(s, k, w, h);
      RunSnoc(s0, ks, s, k);
      s := Update(s, k);
      steps := steps + 1;
      ks := ks + [k];
    }
    DoneCoversGrid(s, w, h);
    IdleForever(s);
    r := Success(s);
  }

  /** Extending a run by one more draw is one more `update` on the state it reached. */
  lemma {:induction false} RunSnoc(s0: Tracker, ks: seq<nat>, s: Tracker, k: nat)
    requires s0.pos in s0.tiles && s.pos in s.tiles
    requires Run(s0, ks) == Some(s)
    requires Choices(s) != [] ==> k < |Choices(s)|
    ensures Run(s0, ks + [k]) == Some(Update(s, k))
    decreases |ks|
  {
    if |ks| == 0 {
      RunOne(s, k);
    } else {
      var next := RunFirst(s0, ks);
      assert (ks + [k])[0] == ks[0] && (ks + [k])[1..] == ks[1..] + [k];
      var same := RunFirst(s0, ks + [k]);
      RunSnoc(next, ks[1..], s, k);
    }
  }

  /** A run of one draw is one `update`. */
  lemma RunOne(s: Tracker, k: nat)
    requires s.pos in s.tiles
    requires Choices(s) != [] ==> k < |Choices(s)|
    ensures Run(s, [k]) == Some(Update(s, k))
  {
    assert [k][1..] == [];
  }

  /** A run that does not fail takes its first draw with an `update`. */
  lemma RunFirst(s: Tracker, ks: seq<nat>) returns (next: Tracker)
    requires s.pos in s.tiles && |ks| > 0
    requires Run(s, ks).Some? || (Choices(s) != [] ==> ks[0] < |Choices(s)|)
    ensures Choices(s) != [] ==> ks[0] < |Choices(s)|
    ensures next == Update(s, ks[0]) && next.pos in next.tiles
    ensures Run(s, ks) == Run(next, ks[1..])
  {
    next := Update(s, ks[0]);
  }

  /** Repeated `update` calls, the `i`-th drawing index `ks[i]`; `None` when a
      draw is out of range for the list it is taken from. */
  function Run(s: Tracker, ks: seq<nat>): (r: Option<Tracker>)
    requires s.pos in s.tiles
    ensures r.Some? ==> r.value.pos in r.value.tiles && Monotone(s.tiles, r.value.tiles)
    decreases |ks|
  {
    if |ks| == 0 then Some(s)
    else if Choices(s) != [] && ks[0] >= |Choices(s)| then None
    else Run(Update(s, ks[0]), ks[1..])
  }

  /** Every state a run reaches satisfies the invariant. */
  lemma {:induction false} RunInv(s: Tracker, ks: seq<nat>)
    requires Inv(s)
    requires Run(s, ks).Some?
    ensures Inv(Run(s, ks).value)
    decreases |ks|
  {
    if |ks| > 0 {
      UpdateInv(s, ks[0]);
      RunInv(Update(s, ks[0]), ks[1..]);
    }
  }

  /** Idempotence: once history is empty, no number of further updates changes anything. */
  lemma {:induction false} RunIdle(s: Tracker, ks: seq<nat>)
    requires Inv(s)
    requires |s.history.items| == 0
    ensures Run(s, ks) == Some(s)
    decreases |ks|
  {
    if |ks| > 0 {
      UpdateIdle(s, ks[0]);
      RunIdle(s, ks[1..]);
    }
  }

  /** Termination: any run of at least `Measure(s)` draws empties history. */
  lemma {:induction false} RunTerminates(s: Tracker, ks: seq<nat>)
    requires Inv(s)
    requires |ks| >= Measure(s)
    requires Run(s, ks).Some?
    ensures |Run(s, ks).value.history.items| == 0
    decreases |ks|
  {
    if |s.history.items| == 0 {
      RunIdle(s, ks);
    } else {
      UpdateInv(s, ks[0]);
      UpdateProgress(s, ks[0]);
      RunTerminates(Update(s, ks[0]), ks[1..]);
    }
  }

  /** A new maze has everything left to do: one unit per tile. */
  lemma NewMazeMeasure(w: int, h: int)
    requires w > 0 && h > 0
    ensures Measure(NewMaze(w, h).value) == |NewMaze(w, h).value.tiles|
  {
    var s := NewMaze(w, h).value;
    var g := FreshGrid(w, h);
    UnvisitedAfter(g, s.tiles, {Origin});
    assert Unvisited(g) == g.Keys;
    assert |Unvisited(s.tiles)| == |g.Keys| - 1;
  }

  /** From a new maze, any run with at least as many draws as there are tiles
      ends with history empty, every tile visited and `update` idle. */
  lemma RunCompletes(w: int, h: int, ks: seq<nat>)
    requires w > 0 && h > 0
    requires |ks| >= |NewMaze(w, h).value.tiles|
    requires Run(NewMaze(w, h).value, ks).Some?
    ensures var r := Run(NewMaze(w, h).value, ks).value;
      && |r.history.items| == 0
      && (forall c :: c in r.tiles <==> InRange(c, w, h))
      && (forall c :: c in r.tiles ==> r.tiles[c].visited)
      && (forall k: nat :: Update(r, k) == r)
  {
    var s := NewMaze(w, h).value;
    NewMazeInv(w, h);
    NewMazeMeasure(w, h);
    RunTerminates(s, ks);
    RunInv(s, ks);
    var r := Run(s, ks).value;
    assert r.tiles.Keys == s.tiles.Keys;
    DoneCoversGrid(r, w, h);
    IdleForever(r);
  }

  lemma IdleForever(s: Tracker)
    requires Inv(s)
    requires |s.history.items| == 0
    ensures Choices(s) == []
    ensures forall k: nat :: Update(s, k) == s
  {
    UpdateIdle(s, 0);
    forall k: nat
      ensures Update(s, k) == s
    {
      UpdateIdle(s, k);
    }
  }
}
