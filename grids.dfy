/**
 The grid as a map from position to state, and the queries and updates the
 generator performs on it: clearing the domain, the orthogonal and diagonal
 neighbour queries, and carving a corridor.
 */
module Grids {
  import opened Cells
  import opened Vectors

  type Grid = map<CellPos, CellState>

  predicate InRect(p: CellPos, w: int, h: int)
  {
    0 <= p.x < w && 0 <= p.y < h
  }

  /** The domain `[0,w) x [0,h)`; empty when either bound is not positive. */
  function Rect(w: int, h: int): (r: set<CellPos>)
    ensures forall p :: p in r <==> InRect(p, w, h)
  {
    var r := set x: int, y: int | 0 <= x < w && 0 <= y < h :: CellPos(x, y);
    assert forall p: CellPos :: InRect(p, w, h) ==> CellPos(p.x, p.y) in r;
    r
  }

  /** The cells of column `x` with row below `h`. */
  function Column(x: int, h: int): (r: set<CellPos>)
    ensures forall p: CellPos :: p in r <==> p.x == x && 0 <= p.y < h
  {
    var r := set y: int | 0 <= y < h :: CellPos(x, y);
    assert forall p: CellPos :: p.x == x && 0 <= p.y < h ==> CellPos(p.x, p.y) in r;
    r
  }

  lemma ColumnStep(x: int, y: int)
    requires y >= 0
    ensures Column(x, y) + {CellPos(x, y)} == Column(x, y + 1)
  {
  }

  lemma RectStep(x: int, h: int, y: int)
    requires x >= 0 && y == (if h < 0 then 0 else h)
    ensures Rect(x, h) + Column(x, y) == Rect(x + 1, h)
  {
  }

  lemma RectEmptyWidth(x: int, w: int, h: int)
    requires x == (if w < 0 then 0 else w)
    ensures Rect(x, h) == Rect(w, h)
  {
  }

  /** `g` with every position of `cells` inserted as `Blocked`. */
  function Fill(g: Grid, cells: set<CellPos>): Grid
  {
    map p | p in g.Keys + cells :: if p in cells then Blocked else g[p]
  }

  /** Inserting one more position as `Blocked`. */
  lemma FillInsert(g: Grid, cells: set<CellPos>, p: CellPos)
    ensures Fill(g, cells)[p := Blocked] == Fill(g, cells + {p})
  {
  }

  /** The grid after `clear_grid`: every domain position inserted as `Blocked`. */
  function Cleared(g: Grid, w: int, h: int): Grid
  {
    Fill(g, Rect(w, h))
  }

  /**
   After clearing, every domain position is present and `Blocked`, the keys are
   the old keys plus the domain, and positions outside the domain keep their state.
   */
  lemma ClearedBlocksDomain(g: Grid, w: int, h: int)
    ensures Cleared(g, w, h).Keys == g.Keys + Rect(w, h)
    ensures forall x, y :: 0 <= x < w && 0 <= y < h ==>
              CellPos(x, y) in Cleared(g, w, h) && Cleared(g, w, h)[CellPos(x, y)] == Blocked
    ensures forall p :: p in g && !InRect(p, w, h) ==> Cleared(g, w, h)[p] == g[p]
  {
  }

  /** Clearing twice gives the same grid as clearing once. */
  lemma ClearedIdempotent(g: Grid, w: int, h: int)
    ensures Cleared(Cleared(g, w, h), w, h) == Cleared(g, w, h)
  {
    var once := Cleared(g, w, h);
    var twice := Cleared(once, w, h);
    assert twice.Keys == once.Keys;
    forall p | p in once ensures twice[p] == once[p] {
    }
  }

  /** Whether a cell in state `actual` answers a neighbour query for `query`. */
  predicate Matches(actual: CellState, query: CellState)
  {
    if query == Blocked then actual == Blocked else Carved(actual)
  }

  /** What a neighbour probe keeps: cells matching a query, or cells in exactly one state. */
  datatype Want = Like(query: CellState) | Exactly(state: CellState)

  predicate Accepts(want: Want, actual: CellState)
  {
    match want
    case Like(q) => Matches(actual, q)
    case Exactly(t) => actual == t
  }

  /** The probes of `ps` that are keys of `g` and whose state `want` accepts, in probe order. */
  function KeepIn(g: Grid, ps: seq<CellPos>, want: Want): (r: seq<CellPos>)
    ensures |r| <= |ps|
    ensures forall p :: p in r <==> p in ps && p in g && Accepts(want, g[p])
    ensures NoDup(ps) ==> NoDup(r)
  {
    if ps == [] then []
    else
      var last := ps[|ps| - 1];
      var rest := KeepIn(g, ps[..|ps| - 1], want);
      assert ps == ps[..|ps| - 1] + [last];
      if last in g && Accepts(want, g[last]) then
        assert NoDup(ps) ==> NoDup(ps[..|ps| - 1]) && last !in rest;
        rest + [last]
      else rest
  }

  /**
   The filter keeps probe order: filtering a concatenation filters each part
   and concatenates, so a kept probe appears where its probe stood.
   */
  lemma {:induction false} KeepInAppend(g: Grid, a: seq<CellPos>, b: seq<CellPos>, want: Want)
    ensures KeepIn(g, a + b, want) == KeepIn(g, a, want) + KeepIn(g, b, want)
  {
    if b == [] {
      assert a + b == a;
    } else {
      assert (a + b)[..|a + b| - 1] == a + b[..|b| - 1];
      KeepInAppend(g, a, b[..|b| - 1], want);
    }
  }

  /** Filtering one more probe appends it exactly when it is present and accepted. */
  lemma KeepInSnoc(g: Grid, ps: seq<CellPos>, m: nat, want: Want)
    requires m < |ps|
    ensures KeepIn(g, ps[..m + 1], want)
            == KeepIn(g, ps[..m], want) + if ps[m] in g && Accepts(want, g[ps[m]]) then [ps[m]] else []
  {
    assert ps[..m + 1][..m] == ps[..m];
  }

  /** A single probe is kept exactly when it is present and accepted. */
  lemma KeepInSingle(g: Grid, p: CellPos, want: Want)
    ensures KeepIn(g, [p], want) == if p in g && Accepts(want, g[p]) then [p] else []
  {
  }

  /** `get_adjcells`: the cells at distance `d` along the axes that answer `query`. */
  function AdjCells(g: Grid, c: CellPos, query: CellState, d: int): seq<CellPos>
  {
    KeepIn(g, Probes(c, d), Like(query))
  }

  /** The four probes at a non-zero distance are distinct. */
  lemma ProbesDistinct(c: CellPos, d: int)
    requires d != 0
    ensures NoDup(Probes(c, d))
  {
  }

  /**
   The neighbour query returns at most four cells, each one of the four probes
   present in the grid; for a `Blocked` query exactly the blocked ones, for any
   other query exactly the passage and light ones, so never an entry or exit.
   A non-zero distance gives no duplicates.
   */
  lemma AdjCellsSpec(g: Grid, c: CellPos, query: CellState, d: int)
    ensures |AdjCells(g, c, query, d)| <= 4
    ensures query == Blocked ==> forall p :: p in AdjCells(g, c, query, d) <==>
              p in Probes(c, d) && p in g && g[p] == Blocked
    ensures query != Blocked ==> forall p :: p in AdjCells(g, c, query, d) <==>
              p in Probes(c, d) && p in g && (g[p] == Passage || g[p] == Light)
    ensures d != 0 ==> NoDup(AdjCells(g, c, query, d))
  {
    if d != 0 {
      ProbesDistinct(c, d);
    }
  }

  /** `get_diagonal_cells`' selection: the diagonal cells present in exactly the `Passage` state. */
  function DiagonalPassages(g: Grid, c: CellPos): seq<CellPos>
  {
    KeepIn(g, DiagonalProbes(c), Exactly(Passage))
  }

  /** At most four distinct diagonal cells, each present with state `Passage`; lights are left out. */
  lemma DiagonalPassagesSpec(g: Grid, c: CellPos)
    ensures |DiagonalPassages(g, c)| <= 4 && NoDup(DiagonalPassages(g, c))
    ensures forall p :: p in DiagonalPassages(g, c) <==>
              p in DiagonalProbes(c) && p in g && g[p] == Passage
  {
  }

  /**
   Two grids with the same keys that differ only by relabelling carved cells
   (passage to light, say) answer every neighbour query alike.
   */
  lemma {:induction false} RelabelKeepsQueries(g: Grid, g': Grid, ps: seq<CellPos>, query: CellState)
    requires g'.Keys == g.Keys
    requires forall p :: p in g && g'[p] != g[p] ==> Carved(g[p]) && Carved(g'[p])
    ensures KeepIn(g', ps, Like(query)) == KeepIn(g, ps, Like(query))
  {
    if ps != [] {
      RelabelKeepsQueries(g, g', ps[..|ps| - 1], query);
    }
  }

  /** Not on the outer ring of the domain. */
  predicate Interior(p: CellPos, w: int, h: int)
  {
    1 <= p.x <= w - 2 && 1 <= p.y <= h - 2
  }

  /** The cells of `g` in state `Blocked`. */
  function BlockedCells(g: Grid): set<CellPos>
  {
    set p | p in g && g[p] == Blocked
  }

  /**
   One carving step: the cell between `cell` and its passage neighbour `nb`,
   then `cell` itself, become `Passage`; no other cell changes and no key is
   added. Carving a blocked cell shrinks the set of blocked cells.
   */
  function Carve(g: Grid, cell: CellPos, nb: CellPos): (r: Grid)
    requires cell in g && Midpoint(cell, nb) in g
    ensures r.Keys == g.Keys
    ensures r[cell] == Passage && r[Midpoint(cell, nb)] == Passage
    ensures forall p :: p in g && p != cell && p != Midpoint(cell, nb) ==> r[p] == g[p]
    ensures g[cell] == Blocked ==> BlockedCells(r) < BlockedCells(g)
  {
    var r := g[Midpoint(cell, nb) := Passage][cell := Passage];
    assert cell in BlockedCells(g) ==> cell !in BlockedCells(r);
    r
  }
}
