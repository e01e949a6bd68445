/**
 The maze generator: a grid of cell states over `[0,width) x [0,height)`,
 carved into a maze by randomized frontier growth, with an entry and an exit
 stamped on the border and lights placed by a walk over the passages.
 Random choices are nondeterministic choices within the bounds the random
 generator is called with.
 */
module Mazes {
  import opened Cells
  import opened Vectors
  import opened Grids
  import opened Lighting
  import opened Carving

  /** The positions among `keys` that the walk has not visited yet. */
  ghost function Unvisited(keys: set<CellPos>, visited: seq<CellPos>): set<CellPos>
  {
    set p | p in keys && p !in visited
  }

  /**
   Every neighbour query the walk answered is followed up: each orthogonal
   passage or light neighbour of a visited cell is visited or still on the stack.
   */
  ghost predicate ClosedUpTo(g: Grid, visited: seq<CellPos>, stack: seq<CellPos>)
  {
    forall i, q :: 0 <= i < |visited| && q in AdjCells(g, visited[i], Passage, 1) ==> q in visited || q in stack
  }

  /**
   One step of the walk strictly lowers the pair (unvisited positions, stack
   entries already visited): a cell visited for the first time leaves the
   unvisited set; popping a visited cell, when only unvisited cells are
   pushed, lowers the second count.
   */
  lemma PopDecreases(keys: set<CellPos>, stack: seq<CellPos>, visited: seq<CellPos>, pushed: seq<CellPos>)
    requires stack != [] && stack[|stack| - 1] in keys
    requires forall q :: q in pushed ==> q !in visited + [stack[|stack| - 1]]
    ensures var top := stack[|stack| - 1];
      var visited', stack' := visited + [top], stack[..|stack| - 1] + pushed;
      Unvisited(keys, visited') < Unvisited(keys, visited)
      || (Unvisited(keys, visited') == Unvisited(keys, visited) && CountIn(stack', visited') < CountIn(stack, visited))
  {
    var top := stack[|stack| - 1];
    var visited', rest := visited + [top], stack[..|stack| - 1];
    if top in visited {
      assert Unvisited(keys, visited') == Unvisited(keys, visited);
      CountInAppend(rest, pushed, visited');
      CountInDisjoint(pushed, visited');
      CountInSameMembers(rest, visited', visited);
      assert stack == rest + [top];
    } else {
      assert top in Unvisited(keys, visited) && top !in Unvisited(keys, visited');
    }
  }

  /** Every cell of `stack` is a position of `g` or the walk's start. */
  predicate OnGrid(g: Grid, stack: seq<CellPos>)
  {
    forall q :: q in stack ==> q in g || q == LightStart
  }

  /**
   The walk of the light planner as a reference definition: pop the most
   recently pushed cell, record it as visited, and push its passage and light
   neighbours not yet visited, in probe order, until the stack is empty.
   The result extends the visits made so far.
   */
  ghost function DepthFirst(g: Grid, stack: seq<CellPos>, visited: seq<CellPos>): (r: seq<CellPos>)
    requires OnGrid(g, stack)
    ensures visited <= r
    decreases Unvisited(g.Keys + {LightStart}, visited), CountIn(stack, visited)
  {
    if stack == [] then visited
    else
      var top := stack[|stack| - 1];
      var pushed := Unexplored(g, top, visited + [top]);
      PopStaysInGrid(g, stack, visited, pushed);
      PopDecreases(g.Keys + {LightStart}, stack, visited, pushed);
      var r := DepthFirst(g, stack[..|stack| - 1] + pushed, visited + [top]);
      assert visited <= visited + [top];
      r
  }

  /** The light planner's walk over `g` from the start cell: it visits the start cell first. */
  ghost function WalkFromStart(g: Grid): (r: seq<CellPos>)
    ensures |r| > 0 && r[0] == LightStart
  {
    var r := DepthFirst(g, [LightStart], []);
    assert [LightStart] <= r;
    r
  }

  /** The passage and light neighbours of `c`, in probe order, that are not among `visited`. */
  function Unexplored(g: Grid, c: CellPos, visited: seq<CellPos>): (r: seq<CellPos>)
    ensures forall q :: q in r <==> q in AdjCells(g, c, Passage, 1) && q !in visited
  {
    Without(AdjCells(g, c, Passage, 1), visited)
  }

  /** Popping a cell and pushing its unvisited neighbours keeps the stack on the grid's cells. */
  lemma PopStaysInGrid(g: Grid, stack: seq<CellPos>, visited: seq<CellPos>, pushed: seq<CellPos>)
    requires stack != [] && OnGrid(g, stack)
    requires pushed == Unexplored(g, stack[|stack| - 1], visited + [stack[|stack| - 1]])
    ensures OnGrid(g, stack[..|stack| - 1] + pushed)
    ensures forall q :: q in pushed ==> q !in visited + [stack[|stack| - 1]]
  {
    AdjCellsSpec(g, stack[|stack| - 1], Passage, 1);
    assert forall q :: q in stack[..|stack| - 1] ==> q in stack;
  }

  /** Every visit after the first is a passage or light neighbour of an earlier visit. */
  ghost predicate Linked(g: Grid, visited: seq<CellPos>)
  {
    forall t :: 0 < t < |visited| ==> Follows(g, visited, t)
  }

  /** Visit `t` is a passage or light neighbour of an earlier visit. */
  ghost predicate Follows(g: Grid, visited: seq<CellPos>, t: int)
    requires 0 <= t < |visited|
  {
    exists s :: 0 <= s < t && visited[t] in AdjCells(g, visited[s], Passage, 1)
  }

  /** Every stack entry is a passage or light neighbour of some visit. */
  ghost predicate Pushed(g: Grid, stack: seq<CellPos>, visited: seq<CellPos>)
  {
    forall q :: q in stack ==> exists s :: 0 <= s < |visited| && q in AdjCells(g, visited[s], Passage, 1)
  }

  /** Popping `top`, visiting it and pushing its unvisited neighbours keeps the walk closed. */
  lemma PopKeepsClosed(g: Grid, stack: seq<CellPos>, visited: seq<CellPos>, pushed: seq<CellPos>)
    requires stack != [] && ClosedUpTo(g, visited, stack)
    requires forall q :: q in AdjCells(g, stack[|stack| - 1], Passage, 1) ==>
               q in visited + [stack[|stack| - 1]] || q in pushed
    ensures ClosedUpTo(g, visited + [stack[|stack| - 1]], stack[..|stack| - 1] + pushed)
  {
    var top := stack[|stack| - 1];
    var visited', stack' := visited + [top], stack[..|stack| - 1] + pushed;
    assert stack == stack[..|stack| - 1] + [top];
    forall i, q | 0 <= i < |visited'| && q in AdjCells(g, visited'[i], Passage, 1)
      ensures q in visited' || q in stack'
    {
      if i < |visited| {
        assert visited'[i] == visited[i];
        assert q in visited || q in stack;
      }
    }
  }

  /** Every cell of `cells` is a carved cell of `g`. */
  ghost predicate LitCarved(g: Grid, cells: seq<CellPos>)
  {
    forall q :: q in cells ==> q in g && Carved(g[q])
  }

  /**
   The light planner's bookkeeping after some visits: the grid is the
   starting grid with the placed lights lit; each light was a carved cell;
   each footprint is the one computed when it was placed; placements are
   pairwise apart; the illuminated cells are those the placements claimed;
   they are spaced at
   least four visits apart, each at its recorded visit; and the counter
   holds the number of visits since the last placement.
   */
  ghost predicate Planned(g0: Grid, grid: Grid, pls: seq<Placement>, illuminated: seq<CellPos>,
                          visited: seq<CellPos>, steps: int)
  {
    && grid == LitGrid(g0, CellsOf(pls))
    && LitCarved(g0, CellsOf(pls))
    && FootprintsAsPlaced(g0, pls)
    && PairwiseApart(pls) && illuminated == Illuminated(pls)
    && Spaced(pls)
    && AtVisits(pls, visited)
    && steps == |visited| - (if pls == [] then 0 else pls[|pls| - 1].visit + 1)
  }

  /**
   The walk's state: every stack entry is a carved cell of the starting grid,
   except the start cell before the first visit; the first visit is the start
   cell; every neighbour of a visited cell is visited or on the stack; once a
   cell has been visited, every stack entry was pushed as the neighbour of a
   visit; and every visit after the first is the neighbour of an earlier one.
   */
  ghost predicate Walking(g0: Grid, stack: seq<CellPos>, visited: seq<CellPos>)
  {
    && (forall q :: q in stack ==> (q in g0 && Carved(g0[q])) || (visited == [] && q == LightStart))
    && (visited == [] ==> stack == [LightStart])
    && (visited != [] ==> visited[0] == LightStart)
    && ClosedUpTo(g0, visited, stack)
    && (visited != [] ==> Pushed(g0, stack, visited))
    && Linked(g0, visited)
  }

  /**
   The walk's state, and the reference walk from the current stack and visits
   ends where the reference walk from the start cell does.
   */
  ghost predicate WalkOn(g0: Grid, stack: seq<CellPos>, visited: seq<CellPos>)
  {
    && Walking(g0, stack, visited)
    && OnGrid(g0, stack) && DepthFirst(g0, stack, visited) == WalkFromStart(g0)
  }

  /** The state the light planner's walk keeps from visit to visit. */
  ghost predicate LightWalk(g0: Grid, grid: Grid, stack: seq<CellPos>, visited: seq<CellPos>,
                            illuminated: seq<CellPos>, pls: seq<Placement>, steps: int)
  {
    Planned(g0, grid, pls, illuminated, visited, steps) && Greedy(g0, pls, visited) && WalkOn(g0, stack, visited)
  }

  /**
   When the stack has emptied, the lit grid keeps the starting grid's
   positions and changes carved cells only to `Light`, and the visits are the
   reference walk from the start cell, connected and closed under passage
   neighbours.
   */
  lemma WalkDone(g0: Grid, grid: Grid, visited: seq<CellPos>,
                 illuminated: seq<CellPos>, pls: seq<Placement>, steps: int)
    requires LightWalk(g0, grid, [], visited, illuminated, pls, steps)
    ensures grid.Keys == g0.Keys
    ensures forall p :: p in grid ==> grid[p] == g0[p] || (grid[p] == Light && Carved(g0[p]))
    ensures forall i :: 0 <= i < |pls| ==> pls[i].cell in g0 && Carved(g0[pls[i].cell])
    ensures visited == WalkFromStart(g0)
    ensures |visited| > 0 && visited[0] == LightStart
    ensures Linked(g0, visited) && ClosedUpTo(g0, visited, [])
  {
    LitGridRelabels(g0, CellsOf(pls), LightStart);
  }

  /**
   One visit of the light planner's walk, before the light rule: the
   bookkeeping counts the visit, the walk's state moves to the popped stack
   with the unvisited neighbours pushed, and the pair the loop decreases goes
   down.
   */
  lemma VisitStep(g0: Grid, grid: Grid, stack: seq<CellPos>, visited: seq<CellPos>,
                  illuminated: seq<CellPos>, pls: seq<Placement>, steps: int, pushed: seq<CellPos>)
    requires LightWalk(g0, grid, stack, visited, illuminated, pls, steps)
    requires stack != []
    requires pushed == Without(AdjCells(grid, stack[|stack| - 1], Passage, 1), visited + [stack[|stack| - 1]])
    ensures var top := stack[|stack| - 1];
      && Planned(g0, grid, pls, illuminated, visited + [top], steps + 1)
      && Greedy(g0, pls, visited) && AtVisits(pls, visited)
      && (steps + 1 >= 4 ==> top in g0 && Carved(g0[top]))
    ensures WalkOn(g0, stack[..|stack| - 1] + pushed, visited + [stack[|stack| - 1]])
    ensures var top := stack[|stack| - 1];
      var keys, visited', stack' := g0.Keys + {LightStart}, visited + [top], stack[..|stack| - 1] + pushed;
      Unvisited(keys, visited') < Unvisited(keys, visited)
      || (Unvisited(keys, visited') == Unvisited(keys, visited) && CountIn(stack', visited') < CountIn(stack, visited))
  {
    var top := stack[|stack| - 1];
    VisitPlanned(g0, grid, pls, illuminated, visited, steps, top);
    VisitWalking(g0, grid, CellsOf(pls), stack, visited, steps, pushed);
    VisitDepthFirst(g0, grid, CellsOf(pls), stack, visited, pushed);
    PopDecreases(g0.Keys + {LightStart}, stack, visited, pushed);
  }

  /** Counting one more visit keeps the bookkeeping. */
  lemma VisitPlanned(g0: Grid, grid: Grid, pls: seq<Placement>, illuminated: seq<CellPos>,
                     visited: seq<CellPos>, steps: int, top: CellPos)
    requires Planned(g0, grid, pls, illuminated, visited, steps)
    ensures Planned(g0, grid, pls, illuminated, visited + [top], steps + 1)
  {
    var visited' := visited + [top];
    forall i | 0 <= i < |pls| ensures pls[i].visit < |visited'| && visited'[pls[i].visit] == pls[i].cell {
    }
    assert AtVisits(pls, visited');
  }

  /**
   One visit: popping the top of the stack, recording it as visited and
   pushing its unvisited passage neighbours (asked of the current grid, which
   answers as the starting grid) keeps the walk's state. Once the counter has
   reached 4 the top is a carved cell.
   */
  lemma VisitWalking(g0: Grid, grid: Grid, cells: seq<CellPos>,
                     stack: seq<CellPos>, visited: seq<CellPos>, steps: int, pushed: seq<CellPos>)
    requires grid == LitGrid(g0, cells) && LitCarved(g0, cells)
    requires steps <= |visited| && Walking(g0, stack, visited)
    requires stack != []
    requires pushed == Without(AdjCells(grid, stack[|stack| - 1], Passage, 1), visited + [stack[|stack| - 1]])
    ensures Walking(g0, stack[..|stack| - 1] + pushed, visited + [stack[|stack| - 1]])
    ensures steps + 1 >= 4 ==> stack[|stack| - 1] in g0 && Carved(g0[stack[|stack| - 1]])
    ensures forall q :: q in pushed ==> q !in visited + [stack[|stack| - 1]]
  {
    var top, rest := stack[|stack| - 1], stack[..|stack| - 1];
    ButLast(stack);
    LitGridRelabels(g0, cells, top);
    AdjCellsSpec(g0, top, Passage, 1);
    PopKeepsClosed(g0, stack, visited, pushed);
    forall q | q in rest + pushed ensures q in g0 && Carved(g0[q]) {
      if q in rest {
        assert q in stack;
      }
    }
    VisitPushed(g0, stack, visited, pushed);
    VisitLinked(g0, stack, visited);
  }

  /**
   A visit keeps every stack entry a neighbour of some visit: the entries
   left below the popped one were already, and the pushed ones are the
   popped cell's own neighbours.
   */
  lemma VisitPushed(g0: Grid, stack: seq<CellPos>, visited: seq<CellPos>, pushed: seq<CellPos>)
    requires stack != [] && (visited == [] ==> stack == [LightStart])
    requires visited != [] ==> Pushed(g0, stack, visited)
    requires forall q :: q in pushed ==> q in AdjCells(g0, stack[|stack| - 1], Passage, 1)
    ensures Pushed(g0, stack[..|stack| - 1] + pushed, visited + [stack[|stack| - 1]])
  {
    var top, rest := stack[|stack| - 1], stack[..|stack| - 1];
    var visited' := visited + [top];
    forall q | q in rest + pushed
      ensures exists s :: 0 <= s < |visited'| && q in AdjCells(g0, visited'[s], Passage, 1)
    {
      if q in rest {
        assert visited != [] && q in stack;
        var s :| 0 <= s < |visited| && q in AdjCells(g0, visited[s], Passage, 1);
        assert visited'[s] == visited[s];
      } else {
        assert visited'[|visited|] == top;
      }
    }
  }

  /**
   A visit keeps the walk connected: the popped cell was pushed as the
   neighbour of an earlier visit, or it is the start cell visited first.
   */
  lemma VisitLinked(g0: Grid, stack: seq<CellPos>, visited: seq<CellPos>)
    requires stack != []
    requires visited != [] ==> Pushed(g0, stack, visited)
    requires Linked(g0, visited)
    ensures Linked(g0, visited + [stack[|stack| - 1]])
  {
    var top := stack[|stack| - 1];
    var visited' := visited + [top];
    forall t | 0 < t < |visited'|
      ensures Follows(g0, visited', t)
    {
      if t < |visited| {
        assert Follows(g0, visited, t);
        var s :| 0 <= s < t && visited[t] in AdjCells(g0, visited[s], Passage, 1);
        assert visited'[s] == visited[s] && visited'[t] == visited[t];
      } else {
        assert top in stack;
        var s :| 0 <= s < |visited| && top in AdjCells(g0, visited[s], Passage, 1);
        assert visited'[s] == visited[s] && visited'[t] == top;
      }
    }
  }

  /**
   One visit of the loop, whose neighbour query asks the current grid, is one
   step of the reference walk over the starting grid.
   */
  lemma VisitDepthFirst(g0: Grid, grid: Grid, cells: seq<CellPos>,
                        stack: seq<CellPos>, visited: seq<CellPos>, pushed: seq<CellPos>)
    requires grid == LitGrid(g0, cells) && LitCarved(g0, cells)
    requires stack != [] && OnGrid(g0, stack)
    requires pushed == Without(AdjCells(grid, stack[|stack| - 1], Passage, 1), visited + [stack[|stack| - 1]])
    ensures OnGrid(g0, stack[..|stack| - 1] + pushed)
    ensures DepthFirst(g0, stack[..|stack| - 1] + pushed, visited + [stack[|stack| - 1]]) == DepthFirst(g0, stack, visited)
  {
    LitGridRelabels(g0, cells, stack[|stack| - 1]);
    assert pushed == Unexplored(g0, stack[|stack| - 1], visited + [stack[|stack| - 1]]);
    PopStaysInGrid(g0, stack, visited, pushed);
  }

  /** Each placement is recorded at its visit: the visit index is in range and names its cell. */
  ghost predicate AtVisits(pls: seq<Placement>, visited: seq<CellPos>)
  {
    forall i :: 0 <= i < |pls| ==> pls[i].visit < |visited| && visited[pls[i].visit] == pls[i].cell
  }

  lemma PlaceAtVisit(pls: seq<Placement>, visited: seq<CellPos>, next: Placement)
    requires AtVisits(pls, visited)
    requires next.visit < |visited| && visited[next.visit] == next.cell
    ensures AtVisits(pls + [next], visited)
  {
    var pls' := pls + [next];
    forall i | 0 <= i < |pls'| ensures pls'[i].visit < |visited| && visited[pls'[i].visit] == pls'[i].cell {
      if i < |pls| {
        assert pls'[i] == pls[i];
      }
    }
  }

  lemma PlaceSpaced(pls: seq<Placement>, next: Placement)
    requires Spaced(pls)
    requires next.visit >= (if pls == [] then 3 else pls[|pls| - 1].visit + 4)
    ensures Spaced(pls + [next])
  {
    var pls' := pls + [next];
    forall i | 0 <= i < |pls'| - 1 ensures pls'[i + 1].visit >= pls'[i].visit + 4 {
      if i + 1 < |pls| {
        assert pls'[i] == pls[i] && pls'[i + 1] == pls[i + 1];
      }
    }
  }

  lemma PlaceCarved(g0: Grid, pls: seq<Placement>, next: Placement)
    requires LitCarved(g0, CellsOf(pls))
    requires next.cell in g0 && Carved(g0[next.cell])
    ensures LitCarved(g0, CellsOf(pls + [next]))
  {
    assert (pls + [next])[..|pls|] == pls;
    assert CellsOf(pls + [next]) == CellsOf(pls) + [next.cell];
  }

  /**
   One placement: when the counter has reached 4, the current cell is the
   latest visit, it and its footprint (computed in the current grid) avoid
   every illuminated cell, lighting it and claiming its footprint and itself
   keeps the bookkeeping with the counter back at 0.
   */
  lemma PlaceStep(g0: Grid, grid: Grid, pls: seq<Placement>, illuminated: seq<CellPos>,
                  visited: seq<CellPos>, steps: int, next: Placement)
    requires Planned(g0, grid, pls, illuminated, visited, steps)
    requires steps >= 4 && next.visit == |visited| - 1 && visited[next.visit] == next.cell
    requires next.cell in g0 && Carved(g0[next.cell])
    requires next.cell !in illuminated
    requires next.footprint == FootprintOf(grid, next.cell)
    requires forall q :: q in next.footprint ==> q !in illuminated
    ensures Planned(g0, grid[next.cell := Light], pls + [next], illuminated + next.footprint + [next.cell], visited, 0)
  {
    PlaceAtVisit(pls, visited, next);
    PlaceSpaced(pls, next);
    PlaceCarved(g0, pls, next);
    PlaceApart(pls, next);
    IlluminatedSnoc(pls, next);
    PlaceLights(g0, pls, next);
    PlaceAsPlaced(g0, pls, next);
  }

  /**
   Visit `t`, with the first `k` placements before it, found the counter at 4
   or more: at least four visits since placement `k - 1` (visit index 3 or
   more before the first placement), and placement `k`, if any, comes later.
   */
  predicate Due(pls: seq<Placement>, k: nat, t: nat)
    requires k <= |pls|
  {
    && (if k == 0 then 3 <= t else pls[k - 1].visit + 4 <= t)
    && (k == |pls| || t < pls[k].visit)
  }

  /**
   The light rule turns cell `c` down after the placements `prior`: `c` is
   already illuminated, or some cell of its footprint in the grid of that
   time is.
   */
  predicate Refused(g0: Grid, prior: seq<Placement>, c: CellPos)
  {
    || c in Illuminated(prior)
    || exists q :: q in FootprintOf(LitGrid(g0, CellsOf(prior)), c) && q in Illuminated(prior)
  }

  /**
   The planner is greedy: every visit that found the counter at 4 or more
   and placed no light was turned down by the rule.
   */
  predicate Greedy(g0: Grid, pls: seq<Placement>, visited: seq<CellPos>)
  {
    forall t: nat, k: nat :: t < |visited| && k <= |pls| && Due(pls, k, t) ==> Refused(g0, pls[..k], visited[t])
  }

  /**
   A visit that places no light keeps the planner greedy, provided the rule
   turned the cell down whenever the counter had reached 4.
   */
  lemma SkipGreedy(g0: Grid, pls: seq<Placement>, visited: seq<CellPos>, top: CellPos)
    requires Greedy(g0, pls, visited) && AtVisits(pls, visited)
    requires (if pls == [] then 3 <= |visited| else pls[|pls| - 1].visit + 4 <= |visited|) ==> Refused(g0, pls, top)
    ensures Greedy(g0, pls, visited + [top])
  {
    var visited' := visited + [top];
    forall t: nat, k: nat | t < |visited'| && k <= |pls| && Due(pls, k, t)
      ensures Refused(g0, pls[..k], visited'[t])
    {
      if t < |visited| {
        assert visited'[t] == visited[t];
      } else {
        assert k == |pls| && pls[..k] == pls;
      }
    }
  }

  /** A visit that places a light keeps the planner greedy. */
  lemma PlaceGreedy(g0: Grid, pls: seq<Placement>, visited: seq<CellPos>, next: Placement)
    requires Greedy(g0, pls, visited) && AtVisits(pls, visited)
    requires next.visit == |visited|
    ensures Greedy(g0, pls + [next], visited + [next.cell])
  {
    var pls', visited' := pls + [next], visited + [next.cell];
    forall t: nat, k: nat | t < |visited'| && k <= |pls'| && Due(pls', k, t)
      ensures Refused(g0, pls'[..k], visited'[t])
    {
      assert k <= |pls| && t < |visited|;
      assert pls'[..k] == pls[..k] && visited'[t] == visited[t];
      assert Due(pls, k, t);
    }
  }

  /**
   The footprint scan of the light planner: whether no cell of `footprint`
   is among the illuminated cells, stopping at the first one that is.
   */
  method Unclaimed(footprint: seq<CellPos>, illuminated: seq<CellPos>) returns (free: bool)
    ensures free <==> forall q :: q in footprint ==> q !in illuminated
  {
    for i := 0 to |footprint|
      invariant forall k :: 0 <= k < i ==> footprint[k] !in illuminated
    {
      if footprint[i] in illuminated {
        return false;
      }
    }
    return true;
  }

  class Maze {
    const height: int
    const width: int
    var grid: Grid

    /** The grid never holds a position outside the domain. */
    ghost predicate Valid()
      reads this
    {
      grid.Keys <= Rect(width, height)
    }

    /** `Maze::new`: fixed dimensions and an empty grid. */
    constructor (height: int, width: int)
      ensures this.height == height && this.width == width
      ensures grid == map[] && Valid()
    {
      this.height := height;
      this.width := width;
      grid := map[];
    }

    /** `clear_grid`: insert every domain position as `Blocked`, column by column. */
    method ClearGrid()
      modifies this
      ensures grid == Cleared(old(grid), width, height)
      ensures old(Valid()) ==> Valid() && grid.Keys == Rect(width, height)
    {
      ghost var g0 := grid;
      ghost var done: set<CellPos> := {};
      var x := 0;
      while x < width
        invariant 0 <= x <= if width < 0 then 0 else width
        invariant done == Rect(x, height)
        invariant grid == Fill(g0, done)
      {
        var y := 0;
        while y < height
          invariant 0 <= y <= if height < 0 then 0 else height
          invariant done == Rect(x, height) + Column(x, y)
          invariant grid == Fill(g0, done)
        {
          FillInsert(g0, done, CellPos(x, y));
          ColumnStep(x, y);
          grid := grid[CellPos(x, y) := Blocked];
          done := done + {CellPos(x, y)};
          y := y + 1;
        }
        RectStep(x, height, y);
        x := x + 1;
      }
      RectEmptyWidth(x, width, height);
      ClearedBlocksDomain(g0, width, height);
    }

    /**
     `get_adjcells`: probe the four cells at distance `dist` in the order
     -x, +x, -y, +y and keep those present whose state answers `state`.
     */
    method GetAdjCells(cellPos: CellPos, state: CellState, dist: int) returns (adjcells: seq<CellPos>)
      ensures adjcells == AdjCells(grid, cellPos, state, dist)
    {
      adjcells := [];
      var adjcellsPos := Probes(cellPos, dist);
      for i := 0 to 4
        invariant adjcells == KeepIn(grid, adjcellsPos[..i], Like(state))
      {
        var pos := adjcellsPos[i];
        KeepInSnoc(grid, adjcellsPos, i, Like(state));
        if pos in grid {
          match grid[pos]
          case Blocked =>
            if state == Blocked {
              adjcells := adjcells + [pos];
            }
          case Light | Passage =>
            if state != Blocked {
              adjcells := adjcells + [pos];
            }
          case _ =>
        }
      }
      assert adjcellsPos[..4] == adjcellsPos;
    }

    /**
     `get_diagonal_cells`: append to `neighbours` the diagonal cells present in
     exactly the `Passage` state, in the order (-1,-1), (-1,1), (1,-1), (1,1).
     */
    method GetDiagonalCells(neighbours: seq<CellPos>, center: CellPos) returns (extended: seq<CellPos>)
      ensures extended == neighbours + DiagonalPassages(grid, center)
    {
      extended := neighbours;
      var offsets := [-1, 1];
      var probes := DiagonalProbes(center);
      for i := 0 to 2
        invariant extended == neighbours + KeepIn(grid, probes[..2 * i], Exactly(Passage))
      {
        for j := 0 to 2
          invariant extended == neighbours + KeepIn(grid, probes[..2 * i + j], Exactly(Passage))
        {
          var nPos := CellPos(center.x + offsets[i], center.y + offsets[j]);
          ghost var k := 2 * i + j;
          DiagonalProbeAt(center, i, j);
          KeepInSnoc(grid, probes, k, Exactly(Passage));
          if nPos in grid && grid[nPos] == Passage {
            AppendAssoc(neighbours, KeepIn(grid, probes[..k], Exactly(Passage)), [nPos]);
            extended := extended + [nPos];
          }
        }
      }
      assert probes[..4] == probes;
    }

    /**
     The footprint a light at `center` would claim (the orthogonal passage
     neighbours, then the diagonal passages, then the step-2 passages whose
     midpoint is among those), as the planner computes it.
     */
    method LightFootprint(center: CellPos) returns (footprint: seq<CellPos>)
      ensures footprint == FootprintOf(grid, center)
    {
      var neighbours := GetAdjCells(center, Passage, 1);
      neighbours := GetDiagonalCells(neighbours, center);
      var v := GetAdjCells(center, Passage, 2);
      v := RetainSeen(v, neighbours, center);
      footprint := neighbours + v;
    }
  
    /**
     `generate`: clear the grid, carve a random odd start cell, then grow the
     maze from a frontier of blocked rooms two steps away: pop a random
     frontier cell, join it through the cell between to a random carved room
     neighbour, and append its blocked room neighbours not yet in the
     frontier. Then stamp the entry and the exit and place the lights. The
     ghost results are the start cell, the maze before lighting, and the
     light planner's record.
     */
    method Generate() returns (ghost start: CellPos, ghost unlit: Grid,
                               ghost placements: seq<Placement>, ghost visits: seq<CellPos>)
      requires Valid() && width >= 3 && height >= 3
      modifies this
      ensures Valid() && grid.Keys == Rect(width, height)
      ensures OddOdd(start) && 1 <= start.x < width && 1 <= start.y < height
      ensures Odd(width) && Odd(height) ==> Interior(start, width, height)
      ensures Finished(unlit, width, height) && forall p :: p in unlit ==> unlit[p] != Light
      ensures unlit[LightStart] == Passage
      ensures Finished(grid, width, height)
      ensures grid == LitGrid(unlit, CellsOf(placements))
      ensures forall p :: p in grid ==> grid[p] == unlit[p] || (grid[p] == Light && unlit[p] == Passage)
      ensures FootprintsAsPlaced(unlit, placements)
      ensures PairwiseApart(placements) && Spaced(placements)
      ensures AtVisits(placements, visits)
      ensures |visits| > 0 && visits[0] == LightStart
      ensures Greedy(unlit, placements, visits)
      ensures visits == WalkFromStart(unlit)
      ensures Linked(unlit, visits) && ClosedUpTo(unlit, visits, [])
    {
      ghost var g0 := grid;
      ClearGrid();
      var x :| 1 <= x < width - 1;
      var y :| 1 <= y < height - 1;
      x := if x % 2 == 0 then x + 1 else x;
      y := if y % 2 == 0 then y + 1 else y;
      var cell := CellPos(x, y);
      start := cell;
      StartGrowing(g0, width, height, cell);
      grid := grid[cell := Passage];
      var frontiers := GetAdjCells(cell, Blocked, 2);
      Grow(cell, frontiers);
      StampedFinished(grid, width, height, start);
      grid := grid[Entrance := Entry];
      grid := grid[ExitPos(width, height) := Exit];
      unlit := grid;
      placements, visits := GenerateLight();
      LightingKeepsFinished(unlit, grid, width, height);
    }

    /**
     The carving loop of `generate`: pop a random frontier cell, join it
     through the cell between to a random carved room neighbour, and append
     its blocked room neighbours not yet in the frontier, until the frontier
     is empty. The carving invariant holds throughout, so at the end every
     room of the domain is carved; cells only ever go from blocked to
     passage.
     */
    method Grow(start: CellPos, initial: seq<CellPos>)
      requires Growing(grid, initial, width, height, start)
      modifies this
      ensures Growing(grid, [], width, height, start)
      ensures CarvedFrom(old(grid), grid)
    {
      ghost var g0 := grid;
      var frontiers := initial;
      while frontiers != []
        invariant Growing(grid, frontiers, width, height, start)
        invariant CarvedFrom(g0, grid)
        decreases BlockedCells(grid), |frontiers|
      {
        var index :| 0 <= index < |frontiers|;
        var cell := frontiers[index];
        ghost var oldFrontiers := frontiers;
        frontiers := SwapRemove(frontiers, index);
        var neighbours := GetAdjCells(cell, Passage, 2);
        if neighbours == [] {
          SkipStep(grid, oldFrontiers, index, width, height, start);
          continue;
        }
        var index2 :| 0 <= index2 < |neighbours|;
        var neighbour := neighbours[index2];
        CarveStep(grid, oldFrontiers, index, neighbour, width, height, start);
        CarveKeepsCarvedFrom(g0, grid, cell, neighbour);
        grid := Carve(grid, cell, neighbour);
        var v := GetAdjCells(cell, Blocked, 2);
        v := Without(v, frontiers);
        frontiers := frontiers + v;
      }
    }

    /**
     The light rule at the visit of `checkPos`, the latest of the visits: once
     the counter has reached 4 and neither the cell nor any cell of its
     footprint is illuminated, the cell becomes `Light`, its footprint and
     itself join the illuminated cells, and the counter restarts; otherwise
     nothing changes.
     */
    method PlaceLight(ghost g0: Grid, checkPos: CellPos, illuminated: seq<CellPos>, ghost pls: seq<Placement>,
                      ghost visited: seq<CellPos>, steps: int)
      returns (illuminated': seq<CellPos>, ghost pls': seq<Placement>, steps': int)
      requires Planned(g0, grid, pls, illuminated, visited + [checkPos], steps)
      requires Greedy(g0, pls, visited) && AtVisits(pls, visited)
      requires steps >= 4 ==> checkPos in g0 && Carved(g0[checkPos])
      modifies this
      ensures if steps >= 4 && !Refused(g0, pls, checkPos)
              then pls' == pls + [Placement(checkPos, FootprintOf(old(grid), checkPos), |visited|)] && steps' == 0
              else pls' == pls && steps' == steps
      ensures Planned(g0, grid, pls', illuminated', visited + [checkPos], steps')
      ensures Greedy(g0, pls', visited + [checkPos])
    {
      illuminated', pls', steps' := illuminated, pls, steps;
      if steps >= 4 && checkPos !in illuminated {
        var footprint := LightFootprint(checkPos);
        var free := Unclaimed(footprint, illuminated);
        if !free {
          SkipGreedy(g0, pls, visited, checkPos);
          return;
        }
        ghost var next := Placement(checkPos, footprint, |visited|);
        PlaceGreedy(g0, pls, visited, next);
        PlaceStep(g0, grid, pls, illuminated, visited + [checkPos], steps, next);
        grid := grid[checkPos := Light];
        illuminated' := illuminated + footprint + [checkPos];
        pls' := pls + [next];
        steps' := 0;
      } else {
        SkipGreedy(g0, pls, visited, checkPos);
      }
    }

    /**
     `generate_light`: a depth-first walk from (1,1) over passage and light
     cells with an explicit stack. A counter of visits runs alongside; once it
     has reached 4 and neither the current cell nor any cell of its footprint
     is illuminated yet, the cell becomes `Light`, its footprint and itself
     join the illuminated cells, and the counter restarts. The ghost results
     record each placement and the visit sequence.
     */
    method GenerateLight() returns (ghost placements: seq<Placement>, ghost visits: seq<CellPos>)
      modifies this
      ensures grid.Keys == old(grid).Keys
      ensures grid == LitGrid(old(grid), CellsOf(placements))
      ensures forall p :: p in grid ==> grid[p] == old(grid)[p] || (grid[p] == Light && Carved(old(grid)[p]))
      ensures forall i :: 0 <= i < |placements| ==>
                placements[i].cell in old(grid) && Carved(old(grid)[placements[i].cell])
      ensures FootprintsAsPlaced(old(grid), placements)
      ensures PairwiseApart(placements)
      ensures Spaced(placements)
      ensures forall i :: 0 <= i < |placements| ==>
                placements[i].visit < |visits| && visits[placements[i].visit] == placements[i].cell
      ensures Greedy(old(grid), placements, visits)
      ensures visits == WalkFromStart(old(grid))
      ensures |visits| > 0 && visits[0] == LightStart
      ensures Linked(old(grid), visits) && ClosedUpTo(old(grid), visits, [])
    {
      ghost var g0 := grid;
      var checkStack := [LightStart];
      var visitedCells: seq<CellPos> := [];
      var illuminatedCells: seq<CellPos> := [];
      placements := [];
      var steps := 0;
      while checkStack != []
        invariant LightWalk(g0, grid, checkStack, visitedCells, illuminatedCells, placements, steps)
        decreases Unvisited(g0.Keys + {LightStart}, visitedCells), CountIn(checkStack, visitedCells)
      {
        var checkPos := checkStack[|checkStack| - 1];
        ghost var oldStack, oldVisited, oldSteps := checkStack, visitedCells, steps;
        checkStack := checkStack[..|checkStack| - 1];
        visitedCells := visitedCells + [checkPos];

        var adj := GetAdjCells(checkPos, Passage, 1);
        var neighbours := Without(adj, visitedCells);
        checkStack := checkStack + neighbours;
        steps := steps + 1;
        VisitStep(g0, grid, oldStack, oldVisited, illuminatedCells, placements, oldSteps, neighbours);
        illuminatedCells, placements, steps := PlaceLight(g0, checkPos, illuminatedCells, placements, oldVisited, steps);
      }
      visits := visitedCells;
      WalkDone(g0, grid, visits, illuminatedCells, placements, steps);
    }
  }
}
