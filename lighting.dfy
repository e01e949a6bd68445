/**
 The light planner's footprint: the cells a light at a position is taken to
 illuminate, the index-removal filter that builds its step-2 part, and the
 grids that result from placing lights.
 */
module Lighting {
  import opened Cells
  import opened Vectors
  import opened Grids

  /** The step-2 cells of `v`, in order, whose midpoint with `c` is in `n`. */
  function KeepSeen(v: seq<CellPos>, n: seq<CellPos>, c: CellPos): (r: seq<CellPos>)
    ensures |r| <= |v|
  {
    if v == [] then []
    else (if Midpoint(c, v[0]) in n then [v[0]] else []) + KeepSeen(v[1..], n, c)
  }

  /** An entry is kept exactly when its midpoint with `c` is in `n`. */
  lemma {:induction false} KeepSeenMembers(v: seq<CellPos>, n: seq<CellPos>, c: CellPos)
    ensures forall p :: p in KeepSeen(v, n, c) <==> p in v && Midpoint(c, p) in n
  {
    if v != [] {
      KeepSeenMembers(v[1..], n, c);
      assert v == [v[0]] + v[1..];
    }
  }

  lemma {:induction false} KeepSeenAppend(a: seq<CellPos>, b: seq<CellPos>, n: seq<CellPos>, c: CellPos)
    ensures KeepSeen(a + b, n, c) == KeepSeen(a, n, c) + KeepSeen(b, n, c)
  {
    if a != [] {
      assert (a + b)[1..] == a[1..] + b;
      KeepSeenAppend(a[1..], b, n, c);
    } else {
      assert a + b == b;
    }
  }

  lemma {:induction false} KeepSeenAllSeen(v: seq<CellPos>, n: seq<CellPos>, c: CellPos)
    requires forall j :: 0 <= j < |v| ==> Midpoint(c, v[j]) in n
    ensures KeepSeen(v, n, c) == v
  {
    if v != [] {
      KeepSeenAllSeen(v[1..], n, c);
    }
  }

  /** An entry whose midpoint is unseen is dropped. */
  lemma KeepSeenSkip(x: CellPos, rest: seq<CellPos>, n: seq<CellPos>, c: CellPos)
    requires Midpoint(c, x) !in n
    ensures KeepSeen([x] + rest, n, c) == KeepSeen(rest, n, c)
  {
    assert ([x] + rest)[1..] == rest;
  }

  predicate Increasing(s: seq<nat>)
  {
    forall i, j :: 0 <= i < j < |s| ==> s[i] < s[j]
  }

  /**
   No index strictly between two consecutive entries of an increasing
   sequence is in it; position `-1` stands for the start, with `b` the next
   entry or any bound past the last.
   */
  lemma GapNotRemoved(s: seq<nat>, k: int, b: int)
    requires Increasing(s) && -1 <= k < |s|
    requires k + 1 < |s| ==> b == s[k + 1]
    ensures forall j :: (k < 0 || s[k] < j) && j < b ==> j !in s
  {
    forall t | 0 <= t < |s| ensures !((k < 0 || s[k] < s[t]) && s[t] < b) {
      if t <= k {
        assert s[t] <= s[k];
      } else if k + 1 < t {
        assert s[k + 1] < s[t];
      }
    }
  }

  /** When every entry before `b` is seen, those entries are kept as they are. */
  lemma KeepSeenSeenPrefix(v0: seq<CellPos>, n: seq<CellPos>, c: CellPos, b: nat)
    requires b <= |v0|
    requires forall j :: 0 <= j < b ==> Midpoint(c, v0[j]) in n
    ensures v0[..b] + KeepSeen(v0[b..], n, c) == KeepSeen(v0, n, c)
  {
    KeepSeenAllSeen(v0[..b], n, c);
    assert v0 == v0[..b] + v0[b..];
    KeepSeenAppend(v0[..b], v0[b..], n, c);
  }

  /**
   Removing the entry at `index` of a vector that already had every unseen
   entry from `b` on removed, when `index` is unseen and every entry strictly
   between is seen, leaves the vector with every unseen entry from `index` on removed.
   */
  lemma RemoveUnseen(v0: seq<CellPos>, n: seq<CellPos>, c: CellPos, index: nat, b: nat)
    requires index < b <= |v0|
    requires Midpoint(c, v0[index]) !in n
    requires forall j :: index < j < b ==> Midpoint(c, v0[j]) in n
    ensures var v := v0[..b] + KeepSeen(v0[b..], n, c);
      index < |v| && v[..index] + v[index + 1..] == v0[..index] + KeepSeen(v0[index..], n, c)
  {
    var pre, x, mid, tail := v0[..index], v0[index], v0[index + 1..b], v0[b..];
    SliceAround(v0, index, b);
    KeepSeenSkip(x, mid + tail, n, c);
    KeepSeenAllSeen(mid, n, c);
    KeepSeenAppend(mid, tail, n, c);
    SplitAround(pre, x, mid, KeepSeen(tail, n, c));
  }

  /**
   The filter of the footprint's step-2 part: record the indices of the
   entries whose midpoint with `center` is not in `neighbours`, then remove
   them in descending order. What is left is exactly the seen entries, in
   their original order.
   */
  method RetainSeen(v0: seq<CellPos>, neighbours: seq<CellPos>, center: CellPos) returns (v: seq<CellPos>)
    ensures v == KeepSeen(v0, neighbours, center)
  {
    var removeV: seq<nat> := [];
    for x := 0 to |v0|
      invariant Increasing(removeV)
      invariant forall k :: 0 <= k < |removeV| ==> removeV[k] < x
      invariant forall j :: 0 <= j < x ==> (j in removeV <==> Midpoint(center, v0[j]) !in neighbours)
    {
      var pos := Midpoint(center, v0[x]);
      if pos !in neighbours {
        removeV := removeV + [x];
      }
    }
    // `remove_v.reverse()` followed by a forward walk: the indices are taken from the back.
    v := v0;
    var k := |removeV|;
    while k > 0
      invariant 0 <= k <= |removeV|
      invariant k < |removeV| ==> removeV[k] < |v0|
      invariant v == v0[..if k == |removeV| then |v0| else removeV[k]]
                     + KeepSeen(v0[if k == |removeV| then |v0| else removeV[k]..], neighbours, center)
    {
      var b := if k == |removeV| then |v0| else removeV[k];
      k := k - 1;
      var index := removeV[k];
      GapNotRemoved(removeV, k, b);
      RemoveUnseen(v0, neighbours, center, index, b);
      v := v[..index] + v[index + 1..];
    }
    var b := if |removeV| == 0 then |v0| else removeV[0];
    GapNotRemoved(removeV, -1, b);
    KeepSeenSeenPrefix(v0, neighbours, center, b);
  }

  /**
   The footprint of a light at `c` in grid `g`: the orthogonal passage and
   light neighbours, the diagonal `Passage` cells, then the step-2 passage and
   light cells whose midpoint with `c` is among those.
   */
  function FootprintOf(g: Grid, c: CellPos): seq<CellPos>
  {
    var n := AdjCells(g, c, Passage, 1) + DiagonalPassages(g, c);
    n + KeepSeen(AdjCells(g, c, Passage, 2), n, c)
  }

  /**
   What the footprint holds: a cell is in it exactly when it is present and is
   an orthogonal carved neighbour, a diagonal `Passage` cell, or a carved cell
   two steps away along an axis with a carved cell between.
   */
  lemma FootprintMembers(g: Grid, c: CellPos)
    ensures forall p :: p in FootprintOf(g, c) <==>
              && p in g
              && ((p in Probes(c, 1) && Carved(g[p]))
                  || (p in DiagonalProbes(c) && g[p] == Passage)
                  || (p in Probes(c, 2) && Carved(g[p]) && Midpoint(c, p) in g && Carved(g[Midpoint(c, p)])))
  {
    var n := AdjCells(g, c, Passage, 1) + DiagonalPassages(g, c);
    AdjCellsSpec(g, c, Passage, 1);
    AdjCellsSpec(g, c, Passage, 2);
    DiagonalPassagesSpec(g, c);
    KeepSeenMembers(AdjCells(g, c, Passage, 2), n, c);
    forall k | 0 <= k < 4
      ensures Midpoint(c, Probes(c, 2)[k]) in n <==>
                Midpoint(c, Probes(c, 2)[k]) in g && Carved(g[Midpoint(c, Probes(c, 2)[k])])
    {
      MidpointOfStep2(c, k);
    }
  }

  /** A light never claims its own cell as part of its footprint. */
  lemma FootprintExcludesCentre(g: Grid, c: CellPos)
    ensures c !in FootprintOf(g, c)
  {
    FootprintMembers(g, c);
    assert c !in Probes(c, 1) && c !in DiagonalProbes(c) && c !in Probes(c, 2);
  }

  /** `g` after each cell of `cells` in turn was set to `Light`. */
  function LitGrid(g: Grid, cells: seq<CellPos>): Grid
  {
    if cells == [] then g else LitGrid(g, cells[..|cells| - 1])[cells[|cells| - 1] := Light]
  }

  /**
   Lighting cells only relabels: the keys stay when every lit cell is present,
   and each cell is either unchanged or a lit cell now in state `Light`.
   */
  lemma {:induction false} LitGridChanges(g: Grid, cells: seq<CellPos>)
    requires forall q :: q in cells ==> q in g
    ensures LitGrid(g, cells).Keys == g.Keys
    ensures forall p :: p in g ==>
              if p in cells then LitGrid(g, cells)[p] == Light else LitGrid(g, cells)[p] == g[p]
  {
    if cells != [] {
      LitGridChanges(g, cells[..|cells| - 1]);
      assert cells == cells[..|cells| - 1] + [cells[|cells| - 1]];
    }
  }

  /** One light placed by the planner: the lit cell, its footprint, and its index among the visits. */
  datatype Placement = Placement(cell: CellPos, footprint: seq<CellPos>, visit: nat)

  function CellsOf(pls: seq<Placement>): (cs: seq<CellPos>)
    ensures |cs| == |pls| && forall i :: 0 <= i < |pls| ==> cs[i] == pls[i].cell
  {
    if pls == [] then [] else CellsOf(pls[..|pls| - 1]) + [pls[|pls| - 1].cell]
  }

  /** Two placements claim disjoint cells: neither light nor any footprint cell is shared. */
  predicate Apart(a: Placement, b: Placement)
  {
    a.cell != b.cell && a.cell !in b.footprint && b.cell !in a.footprint
    && forall q :: q in a.footprint ==> q !in b.footprint
  }

  predicate PairwiseApart(pls: seq<Placement>)
  {
    forall i, j :: 0 <= i < j < |pls| ==> Apart(pls[i], pls[j])
  }

  /** The lights are spaced at least four visits apart, the first after at least four visits. */
  predicate Spaced(pls: seq<Placement>)
  {
    (|pls| > 0 ==> pls[0].visit >= 3)
    && forall i :: 0 <= i < |pls| - 1 ==> pls[i + 1].visit >= pls[i].visit + 4
  }

  /**
   Every placement's footprint is the footprint of its cell in the grid as it
   stood when it was placed: the starting grid with the earlier lights lit.
   */
  predicate FootprintsAsPlaced(g0: Grid, pls: seq<Placement>)
  {
    forall i :: 0 <= i < |pls| ==> AsPlaced(g0, pls, i)
  }

  /** Placement `i`'s footprint is that of its cell once the earlier lights were lit. */
  predicate AsPlaced(g0: Grid, pls: seq<Placement>, i: nat)
    requires i < |pls|
  {
    pls[i].footprint == FootprintOf(LitGrid(g0, CellsOf(pls[..i])), pls[i].cell)
  }

  /**
   The illuminated cells after the placements `pls`: each placement claims its
   footprint and then its own cell. A cell is illuminated exactly when it is
   some placement's cell or lies in some placement's footprint.
   */
  function Illuminated(pls: seq<Placement>): (r: seq<CellPos>)
    ensures forall q :: q in r <==> exists i :: 0 <= i < |pls| && (q == pls[i].cell || q in pls[i].footprint)
  {
    if pls == [] then []
    else
      var last := pls[|pls| - 1];
      var r := Illuminated(pls[..|pls| - 1]) + last.footprint + [last.cell];
      assert forall i :: 0 <= i < |pls| - 1 ==> pls[..|pls| - 1][i] == pls[i];
      r
  }

  /** Placing one more light claims its footprint and then its cell. */
  lemma IlluminatedSnoc(pls: seq<Placement>, next: Placement)
    ensures Illuminated(pls + [next]) == Illuminated(pls) + next.footprint + [next.cell]
  {
    assert (pls + [next])[..|pls|] == pls;
  }

  /**
   A light whose cell and footprint avoid every illuminated cell keeps all
   placements pairwise apart.
   */
  lemma PlaceApart(pls: seq<Placement>, next: Placement)
    requires PairwiseApart(pls)
    requires next.cell !in Illuminated(pls)
    requires forall q :: q in next.footprint ==> q !in Illuminated(pls)
    ensures PairwiseApart(pls + [next])
  {
    var pls' := pls + [next];
    forall i, j | 0 <= i < j < |pls'| ensures Apart(pls'[i], pls'[j]) {
      if j == |pls| {
        assert pls'[i] == pls[i] && pls'[j] == next;
        assert pls[i].cell in Illuminated(pls);
        assert forall q :: q in pls[i].footprint ==> q in Illuminated(pls);
      }
    }
  }

  lemma PrefixOfSnoc<T>(s: seq<T>, x: T, i: nat)
    requires i <= |s|
    ensures (s + [x])[..i] == s[..i]
  {
  }

  /** Recording the grid a new light was placed in keeps every footprint as placed. */
  lemma PlaceAsPlaced(g0: Grid, pls: seq<Placement>, next: Placement)
    requires FootprintsAsPlaced(g0, pls)
    requires next.footprint == FootprintOf(LitGrid(g0, CellsOf(pls)), next.cell)
    ensures FootprintsAsPlaced(g0, pls + [next])
  {
    var pls' := pls + [next];
    forall i | 0 <= i < |pls'| ensures AsPlaced(g0, pls', i) {
      PrefixOfSnoc(pls, next, i);
      if i < |pls| {
        assert AsPlaced(g0, pls, i);
      }
    }
  }

  /** Placing one more light sets its cell to `Light` in the lit grid. */
  lemma PlaceLights(g0: Grid, pls: seq<Placement>, next: Placement)
    ensures LitGrid(g0, CellsOf(pls + [next])) == LitGrid(g0, CellsOf(pls))[next.cell := Light]
  {
    assert (pls + [next])[..|pls|] == pls;
  }

  /**
   Lighting cells that were carved only relabels carved cells: the keys stay,
   a cell either keeps its state or was carved and is now a light, and every
   neighbour query answers as before.
   */
  lemma LitGridRelabels(g: Grid, cells: seq<CellPos>, c: CellPos)
    requires forall q :: q in cells ==> q in g && Carved(g[q])
    ensures LitGrid(g, cells).Keys == g.Keys
    ensures forall p :: p in g ==>
              LitGrid(g, cells)[p] == g[p] || (LitGrid(g, cells)[p] == Light && Carved(g[p]))
    ensures AdjCells(LitGrid(g, cells), c, Passage, 1) == AdjCells(g, c, Passage, 1)
  {
    LitGridChanges(g, cells);
    RelabelKeepsQueries(g, LitGrid(g, cells), Probes(c, 1), Passage);
  }
}
