/** The tile generator: it learns the adjacency table once from a training
    grid, then fills new grids cell by cell, drawing each tile among those
    seen next to the tiles already placed. */
module Generator {
  import opened Directions
  import opened Adjacency
  import opened Sampling

  function Min(a: int, b: int): int {
    if a < b then a else b
  }

  /** The tables coupled_markov_chain consults: for each (tile, direction)
      pair of zip(tiles, neighbors), that tile's table in that direction. */
  function Constraints(counts: seq<seq<Counter>>, tiles: seq<int>, neighbors: seq<int>): seq<Counter>
    requires forall i :: 0 <= i < |tiles| && i < |neighbors| ==>
               0 <= tiles[i] < |counts| && 0 <= neighbors[i] < |counts[tiles[i]]|
  {
    seq(Min(|tiles|, |neighbors|), i requires 0 <= i < Min(|tiles|, |neighbors|) => counts[tiles[i]][neighbors[i]])
  }

  /** The constraint lists the generate loop builds for the cell p from the
      first j orthogonal offsets: for each offset in order whose target is
      already placed, the tile there and the direction under which that tile
      sees p. */
  function Gather(cells: map<Pos, int>, p: Pos, j: nat): (seq<int>, seq<Dir>)
    requires j <= 4
  {
    if j == 0 then ([], [])
    else
      var (tiles, dirs) := Gather(cells, p, j - 1);
      var q := TupleSum(p, AdjacentNeighbors[j - 1]);
      if q in cells then (tiles + [cells[q]], dirs + [InverseNeighbor[AdjacentNeighbors[j - 1]]])
      else (tiles, dirs)
  }

  /** Every constraint names a placed orthogonal neighbour q of p and the
      direction that leads from q back to p. */
  ghost predicate PointsBack(cells: map<Pos, int>, p: Pos, tiles: seq<int>, dirs: seq<Dir>) {
    && |tiles| == |dirs|
    && forall i :: 0 <= i < |tiles| ==>
         exists q :: q in cells && cells[q] == tiles[i] && dirs[i] < 4 && TupleSum(Offset(dirs[i]), q) == p
  }

  lemma {:induction false} GatherPointsBack(cells: map<Pos, int>, p: Pos, j: nat)
    requires j <= 4
    ensures |Gather(cells, p, j).0| <= j
    ensures PointsBack(cells, p, Gather(cells, p, j).0, Gather(cells, p, j).1)
  {
    if j > 0 {
      GatherPointsBack(cells, p, j - 1);
      InverseNeighborPointsBack();
      var (tiles, dirs) := Gather(cells, p, j - 1);
      var n := AdjacentNeighbors[j - 1];
      var q := TupleSum(p, n);
      if q in cells {
        assert n in InverseNeighbor && InverseNeighbor[n] < 4;
        assert TupleSum(Offset(InverseNeighbor[n]), q) == p;
        var (tiles', dirs') := Gather(cells, p, j);
        forall i | 0 <= i < |tiles'|
          ensures exists q' :: q' in cells && cells[q'] == tiles'[i] && dirs'[i] < 4 && TupleSum(Offset(dirs'[i]), q') == p
        {
          if i < |tiles| {
            assert tiles'[i] == tiles[i] && dirs'[i] == dirs[i];
          } else {
            assert tiles'[i] == cells[q] && dirs'[i] == InverseNeighbor[n];
          }
        }
      } else {
        assert Gather(cells, p, j).0 == tiles && Gather(cells, p, j).1 == dirs;
      }
    }
  }

  /** In the scan order of generate only the backward neighbours of (h, k)
      are placed before it: (h, k - 1), which sees (h, k) in direction 3, and
      (h - 1, k), which sees it in direction 0. The constraints are exactly
      those, and there is at least one unless (h, k) is (0, 0). */
  lemma GatherBackward(cells: map<Pos, int>, h: int, k: int)
    requires (h + 1, k) !in cells && (h, k + 1) !in cells
    requires (h, k - 1) in cells <==> k > 0
    requires (h - 1, k) in cells <==> h > 0
    ensures Gather(cells, (h, k), 4).0 ==
              (if k > 0 then [cells[(h, k - 1)]] else []) + (if h > 0 then [cells[(h - 1, k)]] else [])
    ensures Gather(cells, (h, k), 4).1 == (if k > 0 then [3] else []) + (if h > 0 then [0] else [])
    ensures |Gather(cells, (h, k), 4).0| <= 2
    ensures 0 <= h && 0 <= k && (h, k) != (0, 0) ==> |Gather(cells, (h, k), 4).0| >= 1
  {
    var p := (h, k);
    assert AdjacentNeighbors[0] == (1, 0) && AdjacentNeighbors[1] == (0, -1);
    assert AdjacentNeighbors[2] == (-1, 0) && AdjacentNeighbors[3] == (0, 1);
    assert InverseNeighbor[(0, -1)] == 3 && InverseNeighbor[(-1, 0)] == 0;
    assert TupleSum(p, AdjacentNeighbors[0]) == (h + 1, k);
    assert TupleSum(p, AdjacentNeighbors[1]) == (h, k - 1);
    assert TupleSum(p, AdjacentNeighbors[2]) == (h - 1, k);
    assert TupleSum(p, AdjacentNeighbors[3]) == (h, k + 1);
    assert Gather(cells, p, 1).0 == [] && Gather(cells, p, 1).1 == [];
    assert InverseNeighbor[AdjacentNeighbors[1]] == 3 && InverseNeighbor[AdjacentNeighbors[2]] == 0;
    if k > 0 {
      assert Gather(cells, p, 2).0 == [cells[(h, k - 1)]] && Gather(cells, p, 2).1 == [3];
    } else {
      assert Gather(cells, p, 2).0 == [] && Gather(cells, p, 2).1 == [];
    }
    if h > 0 {
      assert Gather(cells, p, 3).0 == Gather(cells, p, 2).0 + [cells[(h - 1, k)]];
      assert Gather(cells, p, 3).1 == Gather(cells, p, 2).1 + [0];
    } else {
      assert Gather(cells, p, 3).0 == Gather(cells, p, 2).0 && Gather(cells, p, 3).1 == Gather(cells, p, 2).1;
    }
    assert Gather(cells, p, 4).0 == Gather(cells, p, 3).0 && Gather(cells, p, 4).1 == Gather(cells, p, 3).1;
  }

  /** The neighbour-gathering loop of generate for the empty cell (h, k). */
  method AdjacentConstraints(cells: map<Pos, int>, h: int, k: int) returns (neighborTiles: seq<int>, positions: seq<Dir>)
    ensures (neighborTiles, positions) == Gather(cells, (h, k), 4)
  {
    neighborTiles, positions := [], [];
    for j := 0 to 4
      invariant (neighborTiles, positions) == Gather(cells, (h, k), j)
    {
      var n := AdjacentNeighbors[j];
      var (u, v) := TupleSum((h, k), n);
      if (u, v) !in cells {
        continue;
      }
      neighborTiles := neighborTiles + [cells[(u, v)]];
      positions := positions + [InverseNeighbor[n]];
    }
  }

  /** The cells generate has filled when it reaches (h, k) of its row-major
      scan: the seed and every cell of the row x col rectangle before (h, k). */
  predicate FilledBefore(p: Pos, row: int, col: int, h: int, k: int) {
    || p == (0, 0)
    || (0 <= p.0 < row && 0 <= p.1 < col && (p.0 < h || (p.0 == h && p.1 < k)))
  }

  /** When the scan reaches an empty cell (h, k) of the rectangle, its
      backward neighbours (h, k - 1) and (h - 1, k) are placed exactly when
      they lie in the grid, and (h, k + 1) and (h + 1, k) are not placed yet. */
  lemma NeighborsPlaced(cells: map<Pos, int>, row: int, col: int, h: int, k: int)
    requires forall p :: p in cells <==> FilledBefore(p, row, col, h, k)
    requires 0 <= h < row && 0 <= k < col && (h, k) !in cells
    ensures (h, k) != (0, 0)
    ensures (h, k - 1) in cells <==> k > 0
    ensures (h - 1, k) in cells <==> h > 0
    ensures (h + 1, k) !in cells && (h, k + 1) !in cells
  {
  }

  /** Tile cells[q] has seen tile cells[p] in direction d. */
  ghost predicate Agrees(cells: map<Pos, int>, counts: seq<seq<Counter>>, q: Pos, d: Dir, p: Pos)
    requires p in cells
  {
    q in cells && 0 <= cells[q] < |counts| && |counts[cells[q]]| == 8 && cells[p] in counts[cells[q]][d]
  }

  /** The tile at p was seen in training next to its backward neighbours:
      from (p.0, p.1 - 1) in direction 3 and from (p.0 - 1, p.1) in
      direction 0, which are the offsets that lead from them to p. */
  ghost predicate AgreesBackward(cells: map<Pos, int>, counts: seq<seq<Counter>>, p: Pos)
    requires p in cells
  {
    && (p.1 > 0 ==> Agrees(cells, counts, (p.0, p.1 - 1), 3, p))
    && (p.0 > 0 ==> Agrees(cells, counts, (p.0 - 1, p.1), 0, p))
  }

  /** Every placed cell but the seed agrees with its backward neighbours. */
  ghost predicate LocallyConsistent(cells: map<Pos, int>, counts: seq<seq<Counter>>) {
    forall p {:trigger AgreesBackward(cells, counts, p)} :: p in cells && p != (0, 0) ==> AgreesBackward(cells, counts, p)
  }

  /** The direction d leads from the placed cell q to the placed cell p, and
      the tile at q has seen the tile at p in that direction. */
  ghost predicate Borders(cells: map<Pos, int>, counts: seq<seq<Counter>>, q: Pos, d: Dir, p: Pos) {
    && p in cells
    && TupleSum(Offset(d), q) == p
    && Agrees(cells, counts, q, d, p)
  }

  /** What local consistency means for the training grid: each cell of a
      consistent grid, with either backward neighbour, repeats a pair of
      tiles that sits at the same offset somewhere in the training grid. */
  lemma ConsistentPairsObserved(counts: seq<seq<Counter>>, g: Grid, n: int, cells: map<Pos, int>, p: Pos)
    requires Tallies(counts, g, n) && LocallyConsistent(cells, counts)
    requires p in cells && p != (0, 0)
    ensures p.1 > 0 ==>
              && (p.0, p.1 - 1) in cells
              && exists x :: x in Scanned(g.col, g.row) && Hit(g.cells, x, cells[(p.0, p.1 - 1)], 3, cells[p])
    ensures p.0 > 0 ==>
              && (p.0 - 1, p.1) in cells
              && exists x :: x in Scanned(g.col, g.row) && Hit(g.cells, x, cells[(p.0 - 1, p.1)], 0, cells[p])
  {
    assert AgreesBackward(cells, counts, p);
    if p.1 > 0 {
      KeyIffObserved(counts, g, n, cells[(p.0, p.1 - 1)], 3, cells[p]);
    }
    if p.0 > 0 {
      KeyIffObserved(counts, g, n, cells[(p.0 - 1, p.1)], 0, cells[p]);
    }
  }

  class TiledImageGenerator {
    const mapping: Grid
    const n: nat
    const counts: seq<seq<Counter>>

    /** The table holds the counts of the training grid. */
    ghost predicate Valid() {
      && Trainable(mapping, n)
      && Tallies(counts, mapping, n)
      && KeysBelow(counts, n)
    }

    constructor (mapping: Grid, n: nat)
      requires Trainable(mapping, n)
      ensures this.mapping == mapping && this.n == n && Valid()
    {
      var counts := ComputeCounts(mapping, n);
      TalliedKeysBelow(counts, mapping, n);
      this.mapping := mapping;
      this.n := n;
      this.counts := counts;
    }

    /** Draw a neighbour of `tile` in direction `neighborId` from its table.
        An empty table leaves nothing to draw. */
    method Wavefunction(tile: int, neighborId: int) returns (r: Result<int>)
      requires Valid() && 0 <= tile < n && 0 <= neighborId < 8
      ensures r.Failure? <==> counts[tile][neighborId] == map[]
      ensures r.Failure? ==> r.error == EmptyDistribution
      ensures r.Success? ==> r.value in counts[tile][neighborId] && 0 <= r.value < n
      ensures forall t :: counts[tile][neighborId].Keys == {t} ==> r == Success(t)
    {
      var c := counts[tile][neighborId];
      if c == map[] {
        return Failure(EmptyDistribution);
      }
      var id := Choice(c);
      return Success(id);
    }

    /** Draw a tile compatible with every (tile, direction) constraint: only
        ids that are a key of every constraint's table survive, each weighted
        by the sum of its counts. No survivor is a contradiction. */
    method CoupledMarkovChain(tiles: seq<int>, neighbors: seq<int>) returns (r: Result<int>)
      requires Valid()
      requires |tiles| > 0 && |neighbors| > 0
      requires forall i :: 0 <= i < |tiles| && i < |neighbors| ==> 0 <= tiles[i] < n && 0 <= neighbors[i] < 8
      ensures r.Failure? <==> Common(Constraints(counts, tiles, neighbors)) == {}
      ensures r.Failure? ==> r.error == Contradiction
      ensures r.Success? ==> 0 <= r.value < n
      ensures r.Success? ==> forall i :: 0 <= i < |tiles| && i < |neighbors| ==> r.value in counts[tiles[i]][neighbors[i]]
      ensures forall t :: Common(Constraints(counts, tiles, neighbors)) == {t} ==> r == Success(t)
    {
      var cs: seq<Counter> := [];
      var i := 0;
      while i < |tiles| && i < |neighbors|
        invariant 0 <= i <= |tiles| && i <= |neighbors|
        invariant |cs| == i
        invariant forall j :: 0 <= j < i ==> cs[j] == counts[tiles[j]][neighbors[j]]
      {
        cs := cs + [counts[tiles[i]][neighbors[i]]];
        i := i + 1;
      }
      assert cs == Constraints(counts, tiles, neighbors);
      var validTileCounts := ValidTileCounts(cs);
      if validTileCounts == map[] {
        return Failure(Contradiction);
      }
      var t := Choice(validTileCounts);
      assert t in cs[0];
      return Success(t);
    }
  
    /** Every surviving id weighs at least one per constraint, so the weights
        handed to the Dirichlet draw are all positive. */
    lemma SurvivorWeightPositive(tiles: seq<int>, neighbors: seq<int>, t: int)
      requires Valid()
      requires |tiles| > 0 && |neighbors| > 0
      requires forall i :: 0 <= i < |tiles| && i < |neighbors| ==> 0 <= tiles[i] < n && 0 <= neighbors[i] < 8
      requires t in Common(Constraints(counts, tiles, neighbors))
      ensures Weight(Constraints(counts, tiles, neighbors), t) >= Min(|tiles|, |neighbors|) > 0
    {
      var cs := Constraints(counts, tiles, neighbors);
      forall j | 0 <= j < |cs|
        ensures t in cs[j] && cs[j][t] > 0
      {
        assert cs[j] == counts[tiles[j]][neighbors[j]];
      }
      WeightAtLeastLength(cs, t);
    }

    /** The tables consulted for the empty cell (h, k) once its backward
        neighbours are placed: that of (h, k - 1) in direction 3, then that
        of (h - 1, k) in direction 0, for those that lie in the grid. */
    ghost function BackwardTables(cells: map<Pos, int>, h: int, k: int): seq<Counter>
      requires Valid()
      requires k > 0 ==> (h, k - 1) in cells && 0 <= cells[(h, k - 1)] < n
      requires h > 0 ==> (h - 1, k) in cells && 0 <= cells[(h - 1, k)] < n
    {
      (if k > 0 then [counts[cells[(h, k - 1)]][3]] else []) + (if h > 0 then [counts[cells[(h - 1, k)]][0]] else [])
    }

    /** The scan of generate, started from the seed, is stuck at the empty
        cell (h, k) of the outer x inner rectangle: every cell before it is
        placed and locally consistent, and the tables of its backward
        neighbours share no tile. */
    ghost predicate StuckAt(cells: map<Pos, int>, seed: int, outer: int, inner: int, h: int, k: int)
      requires Valid()
    {
      && 0 <= h < outer && 0 <= k < inner && (h, k) != (0, 0)
      && (forall p :: p in cells <==> FilledBefore(p, outer, inner, h, k))
      && (0, 0) in cells && cells[(0, 0)] == seed
      && (forall p :: p in cells ==> 0 <= cells[p] < n)
      && LocallyConsistent(cells, counts)
      && (k > 0 ==> (h, k - 1) in cells) && (h > 0 ==> (h - 1, k) in cells)
      && |BackwardTables(cells, h, k)| > 0
      && Common(BackwardTables(cells, h, k)) == {}
    }

    /** Every tile's table below it and every tile's table to its right are
        non-empty, and any two of them share a tile: the scan can never get
        stuck. */
    ghost predicate AlwaysResolvable()
      requires Valid()
    {
      forall a, b :: 0 <= a < n && 0 <= b < n ==>
        counts[a][3] != map[] && counts[b][0] != map[] && Common([counts[a][3], counts[b][0]]) != {}
    }

    /** The lists the scan hands to coupled_markov_chain select exactly the
        backward tables. */
    lemma ConstraintsAreBackwardTables(cells: map<Pos, int>, h: int, k: int, tiles: seq<int>, dirs: seq<Dir>)
      requires Valid()
      requires forall p :: p in cells ==> 0 <= cells[p] < n
      requires (h, k - 1) in cells <==> k > 0
      requires (h - 1, k) in cells <==> h > 0
      requires tiles == (if k > 0 then [cells[(h, k - 1)]] else []) + (if h > 0 then [cells[(h - 1, k)]] else [])
      requires dirs == (if k > 0 then [3] else []) + (if h > 0 then [0] else [])
      ensures forall i :: 0 <= i < |tiles| && i < |dirs| ==> 0 <= tiles[i] < n && 0 <= dirs[i] < 8
      ensures Constraints(counts, tiles, dirs) == BackwardTables(cells, h, k)
    {
      var cs := Constraints(counts, tiles, dirs);
      var bt := BackwardTables(cells, h, k);
      assert |cs| == |bt| == |tiles|;
      forall i | 0 <= i < |cs|
        ensures cs[i] == bt[i]
      {
        assert cs[i] == counts[tiles[i]][dirs[i]];
      }
    }

    /** When the table is always resolvable, the backward tables of a cell
        with at least one placed backward neighbour share a tile. */
    lemma ResolvableTablesMeet(cells: map<Pos, int>, h: int, k: int)
      requires Valid()
      requires k > 0 ==> (h, k - 1) in cells && 0 <= cells[(h, k - 1)] < n
      requires h > 0 ==> (h - 1, k) in cells && 0 <= cells[(h - 1, k)] < n
      ensures AlwaysResolvable() && |BackwardTables(cells, h, k)| > 0 ==> Common(BackwardTables(cells, h, k)) != {}
    {
      var bt := BackwardTables(cells, h, k);
      if AlwaysResolvable() && |bt| > 0 {
        if k > 0 && h > 0 {
          var a, b := cells[(h, k - 1)], cells[(h - 1, k)];
          assert bt == [counts[a][3], counts[b][0]];
          assert Common([counts[a][3], counts[b][0]]) != {};
        } else if k > 0 {
          var a := cells[(h, k - 1)];
          var c := counts[a][3];
          assert bt == [c];
          assert c != map[];
          assert (forall x :: x !in c) ==> c == map[];
          var t :| t in c;
          assert t in Common(bt);
        } else {
          var b := cells[(h - 1, k)];
          var c := counts[b][0];
          assert bt == [c];
          assert c != map[];
          assert (forall x :: x !in c) ==> c == map[];
          var t :| t in c;
          assert t in Common(bt);
        }
      }
    }

    /** The scan of generate: seed (0, 0), then visit (h, k) for h < outer,
        k < inner and resolve every empty cell from its already placed
        orthogonal neighbours. */
    method FillScan(outer: int, inner: int, seed: int) returns (r: Result<map<Pos, int>>)
      requires Valid() && 0 <= seed < n
      ensures r.Failure? ==> r.error == Contradiction
      ensures r.Failure? ==> exists cells, h, k :: StuckAt(cells, seed, outer, inner, h, k)
      ensures AlwaysResolvable() ==> r.Success?
      ensures r.Success? ==> forall p :: p in r.value <==> p == (0, 0) || (0 <= p.0 < outer && 0 <= p.1 < inner)
      ensures r.Success? ==> (0, 0) in r.value && r.value[(0, 0)] == seed
      ensures r.Success? ==> forall p :: p in r.value ==> 0 <= r.value[p] < n
      ensures r.Success? ==> LocallyConsistent(r.value, counts)
    {
      var x, y := 0, 0;
      var tile := seed;
      var cells := map[(x, y) := tile];
      var h := 0;
      while h < outer
        invariant h == 0 || h <= outer
        invariant forall p :: p in cells <==> FilledBefore(p, outer, inner, h, 0)
        invariant (0, 0) in cells && cells[(0, 0)] == seed
        invariant forall p :: p in cells ==> 0 <= cells[p] < n
        invariant LocallyConsistent(cells, counts)
      {
        var k := 0;
        while k < inner
          invariant k == 0 || k <= inner
          invariant forall p :: p in cells <==> FilledBefore(p, outer, inner, h, k)
          invariant (0, 0) in cells && cells[(0, 0)] == seed
          invariant forall p :: p in cells ==> 0 <= cells[p] < n
          invariant LocallyConsistent(cells, counts)
        {
          if (h, k) !in cells {
            NeighborsPlaced(cells, outer, inner, h, k);
            var neighborTiles, positions := AdjacentConstraints(cells, h, k);
            GatherBackward(cells, h, k);
            ConstraintsAreBackwardTables(cells, h, k, neighborTiles, positions);
            ResolvableTablesMeet(cells, h, k);
            var t := CoupledMarkovChain(neighborTiles, positions);
            if t.Failure? {
              assert StuckAt(cells, seed, outer, inner, h, k);
              return Failure(t.error);
            }
            assert k > 0 ==> neighborTiles[0] == cells[(h, k - 1)] && positions[0] == 3;
            assert h > 0 ==> neighborTiles[|neighborTiles| - 1] == cells[(h - 1, k)] && positions[|positions| - 1] == 0;
            PlaceKeepsConsistent(cells, h, k, t.value);
            cells := cells[(h, k) := t.value];
          }
          k := k + 1;
        }
        h := h + 1;
      }
      r := Success(cells);
    }

    /** generate(row, col) as written: it scans product(range(row),
        range(col)), so its keys put the row index first, while its shape
        fields (and every reader of a grid) take the first coordinate below
        col. */
    method Generate(row: int, col: int, seed: int) returns (r: Result<Grid>)
      requires Valid() && 0 <= seed < n
      ensures r.Failure? ==> r.error == Contradiction
      ensures r.Failure? ==> exists cells, h, k :: StuckAt(cells, seed, row, col, h, k)
      ensures AlwaysResolvable() ==> r.Success?
      ensures r.Success? ==> r.value.row == row && r.value.col == col
      ensures r.Success? ==> forall p :: p in r.value.cells <==> p == (0, 0) || (0 <= p.0 < row && 0 <= p.1 < col)
      ensures r.Success? ==> (0, 0) in r.value.cells && r.value.cells[(0, 0)] == seed
      ensures r.Success? ==> forall p :: p in r.value.cells ==> 0 <= r.value.cells[p] < n
      ensures r.Success? ==> LocallyConsistent(r.value.cells, counts)
    {
      var cells := FillScan(row, col, seed);
      if cells.Failure? {
        return Failure(cells.error);
      }
      r := Success(Grid(row, col, cells.value));
    }

    /** generate with the scan over product(range(col), range(row)): the grid
        it returns covers exactly the cells its shape names, like a training
        grid, and can be trained on again. */
    method GenerateInShape(row: int, col: int, seed: int) returns (r: Result<Grid>)
      requires Valid() && 0 <= seed < n
      ensures r.Failure? ==> r.error == Contradiction
      ensures r.Failure? ==> exists cells, h, k :: StuckAt(cells, seed, col, row, h, k)
      ensures AlwaysResolvable() ==> r.Success?
      ensures r.Success? ==> r.value.row == row && r.value.col == col
      ensures r.Success? ==> r.value.cells.Keys == {(0, 0)} + Scanned(r.value.col, r.value.row)
      ensures r.Success? ==> (0, 0) in r.value.cells && r.value.cells[(0, 0)] == seed
      ensures r.Success? ==> LocallyConsistent(r.value.cells, counts)
      ensures r.Success? ==> Trainable(r.value, n)
    {
      var cells := FillScan(col, row, seed);
      if cells.Failure? {
        return Failure(cells.error);
      }
      var g := Grid(row, col, cells.value);
      forall p ensures p in g.cells <==> p in {(0, 0)} + Scanned(col, row) {
        InScanned(p, col, row);
      }
      r := Success(g);
    }

    /** Placing at (h, k) a tile found in the tables of its backward
        neighbours, in the directions leading from them to (h, k), keeps the
        grid locally consistent. */
    lemma PlaceKeepsConsistent(cells: map<Pos, int>, h: int, k: int, t: int)
      requires Valid() && (h, k) !in cells
      requires LocallyConsistent(cells, counts)
      requires forall p :: p in cells ==> 0 <= cells[p] < n
      requires (h, k - 1) in cells <==> k > 0
      requires (h - 1, k) in cells <==> h > 0
      requires k > 0 ==> t in counts[cells[(h, k - 1)]][3]
      requires h > 0 ==> t in counts[cells[(h - 1, k)]][0]
      ensures LocallyConsistent(cells[(h, k) := t], counts)
    {
      var cells' := cells[(h, k) := t];
      forall p | p in cells' && p != (0, 0)
        ensures AgreesBackward(cells', counts, p)
      {
        if p != (h, k) {
          assert p in cells && cells'[p] == cells[p];
          assert AgreesBackward(cells, counts, p);
          if p.1 > 0 {
            assert Agrees(cells, counts, (p.0, p.1 - 1), 3, p);
            assert (p.0, p.1 - 1) != (h, k);
          }
          if p.0 > 0 {
            assert Agrees(cells, counts, (p.0 - 1, p.1), 0, p);
            assert (p.0 - 1, p.1) != (h, k);
          }
        }
      }
    }

    /** The diagonal bootstrap of generate_2 on a 2x2 grid: (1, 1) is drawn
        from the seed's direction-7 table, then (1, 0) from the seed's table
        in direction a10 and the (1, 1) tile's table in direction b10, then
        (0, 1) likewise from directions a01 and b01. */
    method Diagonal(seed: int, a10: Dir, b10: Dir, a01: Dir, b01: Dir) returns (r: Result<Grid>)
      requires Valid() && 0 <= seed < n
      ensures r == Failure(EmptyDistribution) <==> counts[seed][7] == map[]
      ensures r.Failure? && counts[seed][7] != map[] ==>
                r.error == Contradiction &&
                exists s :: s in counts[seed][7] && (!Compatible(seed, a10, s, b10) || !Compatible(seed, a01, s, b01))
      ensures (counts[seed][7] != map[] && forall s :: s in counts[seed][7] ==> Compatible(seed, a10, s, b10) && Compatible(seed, a01, s, b01))
                ==> r.Success?
      ensures r.Success? ==>
                var g := r.value;
                && g.row == 2 && g.col == 2
                && g.cells.Keys == {(0, 0), (1, 0), (0, 1), (1, 1)}
                && g.cells[(0, 0)] == seed
                && 0 <= g.cells[(1, 1)] < n
                && g.cells[(1, 1)] in counts[seed][7]
                && g.cells[(1, 0)] in counts[seed][a10] && g.cells[(1, 0)] in counts[g.cells[(1, 1)]][b10]
                && g.cells[(0, 1)] in counts[seed][a01] && g.cells[(0, 1)] in counts[g.cells[(1, 1)]][b01]
    {
      var row, col := 2, 2;
      var x, y := 0, 0;
      var tile := seed;
      var cells := map[(x, y) := tile];
      var cell11 := Wavefunction(tile, 7);
      if cell11.Failure? {
        return Failure(cell11.error);
      }
      cells := cells[(1, 1) := cell11.value];
      var tiles := [tile, cells[(1, 1)]];
      var positions := [a10, b10];
      assert Constraints(counts, tiles, positions) == [counts[seed][a10], counts[cell11.value][b10]];
      var cell10 := CoupledMarkovChain(tiles, positions);
      if cell10.Failure? {
        return Failure(cell10.error);
      }
      assert cell10.value in counts[tiles[1]][positions[1]];
      cells := cells[(1, 0) := cell10.value];
      positions := [a01, b01];
      assert Constraints(counts, tiles, positions) == [counts[seed][a01], counts[cell11.value][b01]];
      var cell01 := CoupledMarkovChain(tiles, positions);
      if cell01.Failure? {
        return Failure(cell01.error);
      }
      assert cell01.value in counts[tiles[1]][positions[1]];
      cells := cells[(0, 1) := cell01.value];
      r := Success(Grid(row, col, cells));
    }

    /** generate_2 as written: the cell (1, 0) is drawn from the tables in
        directions 2 and 3 and the cell (0, 1) from those in directions 1
        and 0. */
    method Generate2(seed: int) returns (r: Result<Grid>)
      requires Valid() && 0 <= seed < n
      ensures r == Failure(EmptyDistribution) <==> counts[seed][7] == map[]
      ensures r.Failure? && counts[seed][7] != map[] ==>
                r.error == Contradiction &&
                exists s :: s in counts[seed][7] && (!Compatible(seed, 2, s, 3) || !Compatible(seed, 1, s, 0))
      ensures (counts[seed][7] != map[] && forall s :: s in counts[seed][7] ==> Compatible(seed, 2, s, 3) && Compatible(seed, 1, s, 0))
                ==> r.Success?
      ensures r.Success? ==>
                var g := r.value;
                && g.row == 2 && g.col == 2
                && g.cells.Keys == {(0, 0), (1, 0), (0, 1), (1, 1)}
                && g.cells[(0, 0)] == seed
                && g.cells[(1, 1)] in counts[seed][7]
                && g.cells[(1, 0)] in counts[seed][2] && g.cells[(1, 0)] in counts[g.cells[(1, 1)]][3]
                && g.cells[(0, 1)] in counts[seed][1] && g.cells[(0, 1)] in counts[g.cells[(1, 1)]][0]
    {
      r := Diagonal(seed, 2, 3, 1, 0);
    }

    /** generate_2 with every table consulted in the direction that leads
        from the placed cell to the cell being drawn: each of the three drawn
        tiles was seen in training at that offset from each tile it was
        drawn against. */
    method Generate2Aligned(seed: int) returns (r: Result<Grid>)
      requires Valid() && 0 <= seed < n
      ensures r == Failure(EmptyDistribution) <==> counts[seed][7] == map[]
      ensures r.Failure? && counts[seed][7] != map[] ==> r.error == Contradiction
      ensures (counts[seed][7] != map[] && forall s :: s in counts[seed][7] ==> Compatible(seed, 0, s, 1) && Compatible(seed, 3, s, 2))
                ==> r.Success?
      ensures r.Success? ==>
                var c := r.value.cells;
                && r.value.row == 2 && r.value.col == 2
                && c.Keys == {(0, 0), (1, 0), (0, 1), (1, 1)}
                && c[(0, 0)] == seed
                && Borders(c, counts, (0, 0), 7, (1, 1))
                && Borders(c, counts, (0, 0), 0, (1, 0)) && Borders(c, counts, (1, 1), 1, (1, 0))
                && Borders(c, counts, (0, 0), 3, (0, 1)) && Borders(c, counts, (1, 1), 2, (0, 1))
    {
      r := Diagonal(seed, 0, 1, 3, 2);
      assert Offset(7) == (1, 1) && Offset(0) == (1, 0) && Offset(1) == (0, -1);
      assert Offset(3) == (0, 1) && Offset(2) == (-1, 0);
    }

    /** Some tile is seen both from tile a in direction d and from tile b in
        direction e. */
    ghost predicate Compatible(a: int, d: int, b: int, e: int)
      requires Valid() && 0 <= a < n && 0 <= b < n && 0 <= d < 8 && 0 <= e < 8
    {
      Common([counts[a][d], counts[b][e]]) != {}
    }
  }

  /** The keys generate(1, 2) produces as written, against the cells its
      shape fields name: (0, 1) is produced but lies outside a grid one row
      high, and (1, 0) lies inside it but is never produced. */
  lemma TransposedKeys()
    ensures FilledBefore((0, 1), 1, 2, 1, 0) && (0, 1) !in Scanned(2, 1)
    ensures !FilledBefore((1, 0), 1, 2, 1, 0) && (1, 0) in Scanned(2, 1)
  {
  }

  /** A grid that generate returns with the corrected scan and a positive
      shape can be trained on again, and the table learned from it is
      symmetric under the opposite direction. */
  lemma InShapeGridSymmetric(counts: seq<seq<Counter>>, g: Grid, n: int)
    requires g.row > 0 && g.col > 0
    requires g.cells.Keys == {(0, 0)} + Scanned(g.col, g.row)
    requires Tallies(counts, g, n)
    ensures forall a, d, b :: 0 <= a < n && 0 <= d < 8 && 0 <= b < n ==>
              Get(counts[a][d], b) == Get(counts[b][Opposite(d)], a)
  {
    InScanned((0, 0), g.col, g.row);
    assert g.cells.Keys == Scanned(g.col, g.row);
    CountsSymmetric(counts, g, n);
  }

  /** The tables generate_2 consults for (1, 0) and (0, 1), taken from the
      seed at (0, 0) and the tile at (1, 1), lead from those cells elsewhere:
      directions 2 and 3 reach (-1, 0) and (1, 2), directions 1 and 0 reach
      (0, -1) and (2, 1). */
  lemma Generate2TablesMisaligned()
    ensures TupleSum(Offset(2), (0, 0)) != (1, 0) && TupleSum(Offset(3), (1, 1)) != (1, 0)
    ensures TupleSum(Offset(1), (0, 0)) != (0, 1) && TupleSum(Offset(0), (1, 1)) != (0, 1)
  {
  }

  /** What the misaligned tables hold, for a training grid whose keys are its
      scanned cells: the seed's direction-2 table, from which generate_2
      draws the cell to the seed's right, holds exactly the tiles that have
      been seen with the seed to their right; the direction-1 table, drawn
      from for the cell below the seed, holds those that have been seen with
      the seed below them. */
  lemma Generate2DrawsMirrored(counts: seq<seq<Counter>>, g: Grid, n: int, seed: int, x: int)
    requires Tallies(counts, g, n) && g.cells.Keys == Scanned(g.col, g.row)
    requires 0 <= seed < n && 0 <= x < n
    ensures x in counts[seed][2] <==> seed in counts[x][0]
    ensures x in counts[seed][1] <==> seed in counts[x][3]
  {
    CountsSymmetric(counts, g, n);
    assert Opposite(2) == 0 && Opposite(1) == 3;
    assert Get(counts[seed][2], x) == Get(counts[x][0], seed);
    assert Get(counts[seed][1], x) == Get(counts[x][3], seed);
  }
}
