/**
 The carving phase of the generator: randomized frontier growth over the
 "room" cells (both coordinates odd), the invariant it keeps, and the shape
 of the finished maze once the entry and the exit are stamped on the border.
 */
module Carving {
  import opened Cells
  import opened Vectors
  import opened Grids

  /** Where the entry is stamped: the top border row. */
  const Entrance := CellPos(1, 0)

  /** Where the exit is stamped: the bottom border row. */
  function ExitPos(width: int, height: int): CellPos
  {
    CellPos(width - 2, height - 1)
  }

  /** Where the light planner's walk starts: the room next to the entry. */
  const LightStart := CellPos(1, 1)

  /** The probe direction opposite to direction `k` (-x and +x, -y and +y). */
  function Opposite(k: nat): (o: nat)
    requires k < 4
    ensures o < 4 && o != k
  {
    if k % 2 == 0 then k + 1 else k - 1
  }

  /** Stepping two cells in one direction and then two back returns to the start. */
  lemma ProbeBack(p: CellPos, k: nat)
    requires k < 4
    ensures Probes(Probes(p, 2)[k], 2)[Opposite(k)] == p
  {
  }

  /** With odd dimensions, every room of the domain lies off the outer ring. */
  lemma RoomInterior(p: CellPos, w: int, h: int)
    requires Odd(w) && Odd(h) && OddOdd(p) && InRect(p, w, h)
    ensures Interior(p, w, h)
  {
  }

  /** While carving, the grid holds only passages and blocked cells. */
  ghost predicate Unfinished(g: Grid)
  {
    forall p :: p in g ==> g[p] == Blocked || g[p] == Passage
  }

  /** The frontier has no duplicates and holds only blocked rooms of the grid. */
  ghost predicate FrontierOk(g: Grid, frontiers: seq<CellPos>)
  {
    NoDup(frontiers) && forall q :: q in frontiers ==> q in g && g[q] == Blocked && OddOdd(q)
  }

  /**
   No passage is a wall post (both coordinates even), and with odd dimensions
   no passage is on the outer ring.
   */
  ghost predicate Shaped(g: Grid, w: int, h: int)
  {
    && (forall p :: p in g && g[p] == Passage ==> !EvenEven(p))
    && (Odd(w) && Odd(h) ==> forall p :: p in g && g[p] == Passage ==> Interior(p, w, h))
  }

  /** Every room two steps from a carved room is carved or waiting in the frontier. */
  ghost predicate Closed(g: Grid, frontiers: seq<CellPos>)
  {
    forall p, k :: p in g && g[p] == Passage && OddOdd(p) && 0 <= k < 4 && Probes(p, 2)[k] in g ==>
      g[Probes(p, 2)[k]] == Passage || Probes(p, 2)[k] in frontiers
  }

  /**
   A grid over `[0,w) x [0,h)` part way through carving from `start`: only
   passages and blocked cells, the start room carved, and the passages shaped.
   */
  ghost predicate Carving(g: Grid, w: int, h: int, start: CellPos)
  {
    && g.Keys == Rect(w, h) && Unfinished(g)
    && start in g && g[start] == Passage && OddOdd(start)
    && Shaped(g, w, h)
  }

  /** The invariant of the carving loop, for a grid over `[0,w) x [0,h)` grown from `start`. */
  ghost predicate Growing(g: Grid, frontiers: seq<CellPos>, w: int, h: int, start: CellPos)
  {
    Carving(g, w, h, start) && FrontierOk(g, frontiers) && Closed(g, frontiers)
  }

  /**
   Clearing a grid that lies inside the domain, carving the start room and
   taking its blocked room neighbours as the frontier establishes the loop
   invariant.
   */
  lemma StartGrowing(g0: Grid, w: int, h: int, start: CellPos)
    requires g0.Keys <= Rect(w, h)
    requires OddOdd(start) && InRect(start, w, h)
    requires Odd(w) && Odd(h) ==> Interior(start, w, h)
    ensures var g := Cleared(g0, w, h)[start := Passage];
      Growing(g, AdjCells(g, start, Blocked, 2), w, h, start)
  {
    ClearedBlocksDomain(g0, w, h);
    var g1 := Cleared(g0, w, h)[start := Passage];
    var fs := AdjCells(g1, start, Blocked, 2);
    AdjCellsSpec(g1, start, Blocked, 2);
    forall q | q in fs ensures OddOdd(q) {
      var k :| 0 <= k < 4 && q == Probes(start, 2)[k];
      Step2KeepsParity(start, k);
    }
    forall p, k | p in g1 && g1[p] == Passage && OddOdd(p) && 0 <= k < 4 && Probes(p, 2)[k] in g1
      ensures g1[Probes(p, 2)[k]] == Passage || Probes(p, 2)[k] in fs
    {
      assert p == start;
    }
  }

  /**
   A popped frontier cell without a carved room neighbour is not a neighbour
   of any carved room.
   */
  lemma NoPassageNeighbour(g: Grid, cell: CellPos, p: CellPos, k: nat)
    requires AdjCells(g, cell, Passage, 2) == []
    requires p in g && g[p] == Passage && k < 4
    ensures Probes(p, 2)[k] != cell
  {
    ProbeBack(p, k);
    AdjCellsSpec(g, Probes(p, 2)[k], Passage, 2);
  }

  /**
   The loop's `continue`: dropping a frontier cell that has no carved room
   neighbour keeps the invariant.
   */
  lemma SkipStep(g: Grid, frontiers: seq<CellPos>, i: nat, w: int, h: int, start: CellPos)
    requires Growing(g, frontiers, w, h, start) && i < |frontiers|
    requires AdjCells(g, frontiers[i], Passage, 2) == []
    ensures Growing(g, SwapRemove(frontiers, i), w, h, start)
  {
    var cell, rest := frontiers[i], SwapRemove(frontiers, i);
    SwapRemoveDistinct(frontiers, i);
    forall p, k | p in g && g[p] == Passage && OddOdd(p) && 0 <= k < 4 && Probes(p, 2)[k] in g
      ensures g[Probes(p, 2)[k]] == Passage || Probes(p, 2)[k] in rest
    {
      NoPassageNeighbour(g, cell, p, k);
    }
  }

  /**
   Carving a room and the cell between it and a carved room neighbour keeps
   passages off the wall posts and, for odd dimensions, off the border; the
   cell between lies in the grid.
   */
  lemma CarveShaped(g: Grid, w: int, h: int, cell: CellPos, j: nat)
    requires g.Keys == Rect(w, h) && Shaped(g, w, h)
    requires j < 4 && OddOdd(cell) && cell in g
    requires Probes(cell, 2)[j] in g && g[Probes(cell, 2)[j]] == Passage
    ensures Midpoint(cell, Probes(cell, 2)[j]) in g
    ensures Shaped(Carve(g, cell, Probes(cell, 2)[j]), w, h)
  {
    var nb := Probes(cell, 2)[j];
    MidpointOfStep2(cell, j);
    MidpointOfRoomsIsCorridor(cell, j);
    var mid := Midpoint(cell, nb);
    assert mid == Probes(cell, 1)[j];
    assert InRect(cell, w, h) && InRect(nb, w, h);
    assert InRect(mid, w, h);
    var g' := Carve(g, cell, nb);
    forall p | p in g' && g'[p] == Passage ensures !EvenEven(p) && (Odd(w) && Odd(h) ==> Interior(p, w, h)) {
      if p == cell {
        if Odd(w) && Odd(h) {
          RoomInterior(cell, w, h);
        }
      } else if p == mid {
        if Odd(w) && Odd(h) {
          assert Interior(nb, w, h);
        }
      } else {
        assert g[p] == Passage;
      }
    }
  }

  /**
   After a carving step every room next to a carved room is carved or in the
   new frontier: the popped cell's blocked room neighbours are appended.
   */
  lemma CarveClosed(g: Grid, frontiers: seq<CellPos>, i: nat, nb: CellPos)
    requires Unfinished(g) && FrontierOk(g, frontiers) && Closed(g, frontiers) && i < |frontiers|
    requires Midpoint(frontiers[i], nb) in g && !OddOdd(Midpoint(frontiers[i], nb))
    ensures var cell, rest := frontiers[i], SwapRemove(frontiers, i);
      var g' := Carve(g, cell, nb);
      Closed(g', rest + Without(AdjCells(g', cell, Blocked, 2), rest))
  {
    var cell, rest := frontiers[i], SwapRemove(frontiers, i);
    var g' := Carve(g, cell, nb);
    var fs := rest + Without(AdjCells(g', cell, Blocked, 2), rest);
    SwapRemoveDistinct(frontiers, i);
    AdjCellsSpec(g', cell, Blocked, 2);
    forall p, k | p in g' && g'[p] == Passage && OddOdd(p) && 0 <= k < 4 && Probes(p, 2)[k] in g'
      ensures g'[Probes(p, 2)[k]] == Passage || Probes(p, 2)[k] in fs
    {
      var r := Probes(p, 2)[k];
      if p == cell {
        if g'[r] != Passage {
          assert g[r] == Blocked;
          assert r in AdjCells(g', cell, Blocked, 2);
        }
      } else {
        assert g[p] == Passage;
      }
    }
  }

  /**
   After a carving step the frontier is still duplicate-free and holds only
   blocked rooms: the popped cell left it, and only blocked room neighbours
   not already in it were appended.
   */
  lemma CarveFrontier(g: Grid, frontiers: seq<CellPos>, i: nat, nb: CellPos)
    requires FrontierOk(g, frontiers) && i < |frontiers|
    requires Midpoint(frontiers[i], nb) in g && !OddOdd(Midpoint(frontiers[i], nb))
    ensures var cell, rest := frontiers[i], SwapRemove(frontiers, i);
      var g' := Carve(g, cell, nb);
      FrontierOk(g', rest + Without(AdjCells(g', cell, Blocked, 2), rest))
  {
    var cell, rest := frontiers[i], SwapRemove(frontiers, i);
    var g' := Carve(g, cell, nb);
    var added := Without(AdjCells(g', cell, Blocked, 2), rest);
    SwapRemoveDistinct(frontiers, i);
    AdjCellsSpec(g', cell, Blocked, 2);
    NoDupAppend(rest, added);
    forall q | q in rest + added ensures q in g' && g'[q] == Blocked && OddOdd(q) {
      if q in added {
        var k :| 0 <= k < 4 && q == Probes(cell, 2)[k];
        Step2KeepsParity(cell, k);
      }
    }
  }

  /**
   `g` grew from `g0` by carving alone: the same positions, and every cell
   that changed went from `Blocked` to `Passage`.
   */
  ghost predicate CarvedFrom(g0: Grid, g: Grid)
  {
    g.Keys == g0.Keys && forall p :: p in g0 ==> g[p] == g0[p] || (g0[p] == Blocked && g[p] == Passage)
  }

  /** A carving step on a grid of passages and blocked cells only turns blocked cells into passages. */
  lemma CarveKeepsCarvedFrom(g0: Grid, g: Grid, cell: CellPos, nb: CellPos)
    requires CarvedFrom(g0, g) && Unfinished(g)
    requires cell in g && Midpoint(cell, nb) in g
    ensures CarvedFrom(g0, Carve(g, cell, nb))
  {
    var r := Carve(g, cell, nb);
    forall p | p in g0 ensures r[p] == g0[p] || (g0[p] == Blocked && r[p] == Passage) {
      if p == cell || p == Midpoint(cell, nb) {
        assert g[p] == Blocked || g[p] == Passage;
      }
    }
  }

  /**
   One carving step: the popped frontier cell is joined to a carved room
   neighbour `nb` through the cell between them, and its blocked room
   neighbours not yet in the frontier are appended to it. The invariant holds
   afterwards, the cell between lies in the grid, and fewer cells are blocked.
   */
  lemma CarveStep(g: Grid, frontiers: seq<CellPos>, i: nat, nb: CellPos, w: int, h: int, start: CellPos)
    requires Growing(g, frontiers, w, h, start) && i < |frontiers|
    requires nb in AdjCells(g, frontiers[i], Passage, 2)
    ensures Midpoint(frontiers[i], nb) in g
    ensures BlockedCells(Carve(g, frontiers[i], nb)) < BlockedCells(g)
    ensures var cell, rest := frontiers[i], SwapRemove(frontiers, i);
      var g' := Carve(g, cell, nb);
      Growing(g', rest + Without(AdjCells(g', cell, Blocked, 2), rest), w, h, start)
  {
    var cell := frontiers[i];
    AdjCellsSpec(g, cell, Passage, 2);
    var j :| 0 <= j < 4 && nb == Probes(cell, 2)[j];
    CarveShaped(g, w, h, cell, j);
    MidpointOfRoomsIsCorridor(cell, j);
    CarveClosed(g, frontiers, i, nb);
    CarveFrontier(g, frontiers, i, nb);
  }

  /**
   With the frontier empty, every room of the domain is carved: a room is
   reached from the start through rooms two apart, each carved by closure.
   */
  lemma {:induction false} RoomReached(g: Grid, w: int, h: int, start: CellPos, p: CellPos)
    requires Growing(g, [], w, h, start)
    requires OddOdd(p) && InRect(p, w, h)
    ensures g[p] == Passage
    decreases Abs(p.x - start.x) + Abs(p.y - start.y)
  {
    if p != start {
      var q, k;
      if p.x < start.x {
        q, k := CellPos(p.x + 2, p.y), 0;
      } else if p.x > start.x {
        q, k := CellPos(p.x - 2, p.y), 1;
      } else if p.y < start.y {
        q, k := CellPos(p.x, p.y + 2), 2;
      } else {
        q, k := CellPos(p.x, p.y - 2), 3;
      }
      RoomReached(g, w, h, start, q);
      assert Probes(q, 2)[k] == p;
    }
  }

  /**
   The finished maze over `[0,w) x [0,h)`: the entry and the exit stamped at
   their border cells and nowhere else; every other cell blocked or carved;
   wall posts blocked; every room carved; with odd dimensions the outer ring
   blocked except for the entry and the exit.
   */
  ghost predicate Finished(g: Grid, w: int, h: int)
  {
    && g.Keys == Rect(w, h)
    && Entrance in g && g[Entrance] == Entry
    && ExitPos(w, h) in g && g[ExitPos(w, h)] == Exit
    && (forall p :: p in g && p != Entrance && p != ExitPos(w, h) ==> g[p] == Blocked || Carved(g[p]))
    && (forall p :: p in g && EvenEven(p) && p != ExitPos(w, h) ==> g[p] == Blocked)
    && (forall p :: p in g && OddOdd(p) && p != ExitPos(w, h) ==> Carved(g[p]))
    && (Odd(w) && Odd(h) ==>
          forall p :: p in g && !Interior(p, w, h) && p != Entrance && p != ExitPos(w, h) ==> g[p] == Blocked)
  }

  /** Stamping the entry and the exit once the frontier is empty gives a finished maze without lights. */
  lemma StampedFinished(g: Grid, w: int, h: int, start: CellPos)
    requires w >= 3 && h >= 3
    requires Growing(g, [], w, h, start)
    ensures var g' := g[Entrance := Entry][ExitPos(w, h) := Exit];
      && Finished(g', w, h) && (forall p :: p in g' ==> g'[p] != Light)
      && g'[LightStart] == Passage
  {
    forall p | p in g && OddOdd(p) ensures g[p] == Passage {
      RoomReached(g, w, h, start, p);
    }
  }

  /** Relabelling carved cells as lights keeps a maze finished. */
  lemma LightingKeepsFinished(g: Grid, g': Grid, w: int, h: int)
    requires Finished(g, w, h) && g'.Keys == g.Keys
    requires forall p :: p in g ==> g'[p] == g[p] || (g'[p] == Light && Carved(g[p]))
    ensures Finished(g', w, h)
  {
  }
}
