/** The adjacency model: for every (tile, direction) pair, how often each
    tile was seen as that neighbour in the training grid. */
module Adjacency {
  import opened Directions

  /** A frequency table in the manner of a Counter: tile id -> number of
      sightings. An id that is not a key counts as zero. */
  type Counter = map<int, nat>

  function Get(c: Counter, t: int): nat {
    if t in c then c[t] else 0
  }

  /** A position -> tile-id map together with its shape (the source keeps
      the shape under an 'info' key of the same dictionary). */
  datatype Grid = Grid(row: int, col: int, cells: map<Pos, int>)

  /** The cells the counting loop visits: product(range(width), range(height)). */
  function Scanned(width: int, height: int): set<Pos> {
    set u, v | 0 <= u < width && 0 <= v < height :: (u, v)
  }

  lemma InScanned(p: Pos, width: int, height: int)
    ensures p in Scanned(width, height) <==> 0 <= p.0 < width && 0 <= p.1 < height
  {
  }

  /** What the counting code needs of the training grid: every scanned cell
      is present (else the lookup fails) and every tile id lies in [0, n)
      (ids index the table; the tile de-duplication produces exactly those). */
  predicate Trainable(g: Grid, n: int) {
    && (forall u, v :: 0 <= u < g.col && 0 <= v < g.row ==> (u, v) in g.cells)
    && (forall p :: p in g.cells ==> 0 <= g.cells[p] < n)
  }

  /** Cell p holds tile a and its neighbour in direction d holds tile b. */
  predicate Hit(m: map<Pos, int>, p: Pos, a: int, d: Dir, b: int) {
    && p in m && m[p] == a
    && TupleSum(Offset(d), p) in m && m[TupleSum(Offset(d), p)] == b
  }

  /** The cells among `cells` at which the triple (a, d, b) is seen. */
  function Observed(m: map<Pos, int>, cells: set<Pos>, a: int, d: Dir, b: int): set<Pos> {
    set p | p in cells && Hit(m, p, a, d, b)
  }

  /** n tiles, eight counters each, every stored count positive. */
  ghost predicate Shaped(counts: seq<seq<Counter>>, n: int) {
    && |counts| == n
    && (forall t :: 0 <= t < n ==> |counts[t]| == 8)
    && (forall t, d, b :: 0 <= t < n && 0 <= d < 8 && b in counts[t][d] ==> counts[t][d][b] > 0)
  }

  /** counts[a][d][b] is the number of scanned cells holding a whose
      neighbour in direction d holds b. */
  ghost predicate Tallies(counts: seq<seq<Counter>>, g: Grid, n: int) {
    && Shaped(counts, n)
    && forall a, d, b :: 0 <= a < n && 0 <= d < 8 ==>
         Get(counts[a][d], b) == |Observed(g.cells, Scanned(g.col, g.row), a, d, b)|
  }

  /** The loop state after the cells of `done` and the first i directions
      of cell p have been counted. */
  ghost predicate TalliedSoFar(counts: seq<seq<Counter>>, n: int, m: map<Pos, int>, done: set<Pos>, p: Pos, i: int) {
    && Shaped(counts, n)
    && forall a, d, b :: 0 <= a < n && 0 <= d < 8 ==>
         Get(counts[a][d], b) == |Observed(m, done, a, d, b)| + (if d < i && Hit(m, p, a, d, b) then 1 else 0)
  }

  /** Adding one cell to the visited set adds one observation exactly when
      the triple is seen at that cell. */
  lemma ObservedStep(m: map<Pos, int>, done: set<Pos>, p: Pos, a: int, d: Dir, b: int)
    requires p !in done
    ensures |Observed(m, done + {p}, a, d, b)| == |Observed(m, done, a, d, b)| + (if Hit(m, p, a, d, b) then 1 else 0)
  {
    if Hit(m, p, a, d, b) {
      assert Observed(m, done + {p}, a, d, b) == Observed(m, done, a, d, b) + {p};
    } else {
      assert Observed(m, done + {p}, a, d, b) == Observed(m, done, a, d, b);
    }
  }

  lemma FinishCell(counts: seq<seq<Counter>>, n: int, m: map<Pos, int>, done: set<Pos>, p: Pos)
    requires p !in done
    requires TalliedSoFar(counts, n, m, done, p, 8)
    ensures TalliedSoFar(counts, n, m, done + {p}, p, 0)
  {
    forall a, d, b | 0 <= a < n && 0 <= d < 8
      ensures Get(counts[a][d], b) == |Observed(m, done + {p}, a, d, b)|
    {
      ObservedStep(m, done, p, a, d, b);
    }
  }

  /** One more sighting of b in counts[a][d]. */
  function Bump(counts: seq<seq<Counter>>, a: int, d: Dir, b: int): seq<seq<Counter>>
    requires 0 <= a < |counts| && |counts[a]| == 8
  {
    counts[a := counts[a][d := counts[a][d][b := Get(counts[a][d], b) + 1]]]
  }

  /** Counting direction i of cell p: a sighting is added exactly when the
      neighbour there is in the map. */
  lemma CountStep(counts: seq<seq<Counter>>, n: int, m: map<Pos, int>, done: set<Pos>, p: Pos, i: int)
    requires 0 <= i < 8 && p in m && 0 <= m[p] < n
    requires TalliedSoFar(counts, n, m, done, p, i)
    ensures TupleSum(Neighbors[i], p) in m ==> TalliedSoFar(Bump(counts, m[p], i, m[TupleSum(Neighbors[i], p)]), n, m, done, p, i + 1)
    ensures TupleSum(Neighbors[i], p) !in m ==> TalliedSoFar(counts, n, m, done, p, i + 1)
  {
    var q := TupleSum(Neighbors[i], p);
    if q in m {
      var counts' := Bump(counts, m[p], i, m[q]);
      forall a, d, b | 0 <= a < n && 0 <= d < 8
        ensures Get(counts'[a][d], b) == |Observed(m, done, a, d, b)| + (if d < i + 1 && Hit(m, p, a, d, b) then 1 else 0)
      {
        if a == m[p] && d == i && b == m[q] {
          assert Hit(m, p, a, d, b);
        } else {
          assert Get(counts'[a][d], b) == Get(counts[a][d], b);
          assert d == i ==> !Hit(m, p, a, d, b);
        }
      }
    } else {
      forall a, d, b | 0 <= a < n && 0 <= d < 8 && d == i
        ensures !Hit(m, p, a, d, b)
      {
      }
    }
  }

  /** _compute_counts: visit every cell (u, v) with u < col and v < row and,
      for each of the eight offsets whose target is a key of the training
      map, add one sighting of the target's tile to counts[tile][direction]. */
  method ComputeCounts(g: Grid, n: nat) returns (counts: seq<seq<Counter>>)
    requires Trainable(g, n)
    ensures Tallies(counts, g, n)
  {
    var width, height := g.col, g.row;
    counts := seq(n, _ => seq(8, _ => map[]));
    ghost var done: set<Pos> := {};
    var u := 0;
    while u < width
      invariant u == 0 || u <= width
      invariant forall q :: q in done <==> 0 <= q.0 < u && 0 <= q.1 < height
      invariant TalliedSoFar(counts, n, g.cells, done, (u, 0), 0)
    {
      var v := 0;
      while v < height
        invariant v == 0 || v <= height
        invariant forall q :: q in done <==> (0 <= q.0 < u && 0 <= q.1 < height) || (q.0 == u && 0 <= q.1 < v)
        invariant TalliedSoFar(counts, n, g.cells, done, (u, v), 0)
      {
        var tile := g.cells[(u, v)];
        var i := 0;
        while i < 8
          invariant 0 <= i <= 8
          invariant TalliedSoFar(counts, n, g.cells, done, (u, v), i)
        {
          CountStep(counts, n, g.cells, done, (u, v), i);
          var (h, k) := TupleSum(Neighbors[i], (u, v));
          if (h, k) in g.cells {
            var neighbor := g.cells[(h, k)];
            ghost var before := counts;
            counts := counts[tile := counts[tile][i := counts[tile][i][neighbor := Get(counts[tile][i], neighbor) + 1]]];
            assert counts == Bump(before, tile, i, neighbor);
          }
          i := i + 1;
        }
        FinishCell(counts, n, g.cells, done, (u, v));
        done := done + {(u, v)};
        v := v + 1;
      }
      u := u + 1;
    }
    forall q ensures q in done <==> q in Scanned(width, height) {
      InScanned(q, width, height);
    }
    assert done == Scanned(width, height);
  }

  /** Only observed triples are keys: b is a key of counts[a][d] exactly
      when some scanned cell holds a with b as its neighbour in direction d. */
  lemma KeyIffObserved(counts: seq<seq<Counter>>, g: Grid, n: int, a: int, d: Dir, b: int)
    requires Tallies(counts, g, n) && 0 <= a < n
    ensures b in counts[a][d] <==> exists p :: p in Scanned(g.col, g.row) && Hit(g.cells, p, a, d, b)
  {
    var obs := Observed(g.cells, Scanned(g.col, g.row), a, d, b);
    assert Get(counts[a][d], b) == |obs|;
    if b in counts[a][d] {
      assert |obs| > 0;
      var p :| p in obs;
      assert p in Scanned(g.col, g.row) && Hit(g.cells, p, a, d, b);
    }
    if exists p :: p in Scanned(g.col, g.row) && Hit(g.cells, p, a, d, b) {
      var p :| p in Scanned(g.col, g.row) && Hit(g.cells, p, a, d, b);
      assert p in obs;
    }
  }

  /** Every tile id stored in the table lies in [0, n). */
  ghost predicate KeysBelow(counts: seq<seq<Counter>>, n: int)
    requires Shaped(counts, n)
  {
    forall a, d, b :: 0 <= a < n && 0 <= d < 8 && b in counts[a][d] ==> 0 <= b < n
  }

  lemma TalliedKeysBelow(counts: seq<seq<Counter>>, g: Grid, n: int)
    requires Trainable(g, n) && Tallies(counts, g, n)
    ensures KeysBelow(counts, n)
  {
    forall a, d, b | 0 <= a < n && 0 <= d < 8 && b in counts[a][d]
      ensures 0 <= b < n
    {
      KeyIffObserved(counts, g, n, a, d, b);
    }
  }

  /** The positions of s moved by the offset o. */
  function Shift(s: set<Pos>, o: Pos): set<Pos> {
    set p | p in s :: TupleSum(o, p)
  }

  lemma {:induction false} ShiftCard(s: set<Pos>, o: Pos)
    ensures |Shift(s, o)| == |s|
  {
    if s != {} {
      var x :| x in s;
      ShiftCard(s - {x}, o);
      assert Shift(s, o) == Shift(s - {x}, o) + {TupleSum(o, x)};
      assert TupleSum(o, x) !in Shift(s - {x}, o);
    }
  }

  /** When the training map has no keys beyond the scanned cells, moving the
      cells that see (a, d, b) one step in direction d gives exactly the cells
      that see (b, Opposite(d), a). */
  lemma ObservedMirror(m: map<Pos, int>, cells: set<Pos>, a: int, d: Dir, b: int)
    requires m.Keys == cells
    ensures Shift(Observed(m, cells, a, d, b), Offset(d)) == Observed(m, cells, b, Opposite(d), a)
  {
    var o := Offset(d);
    var e := Opposite(d);
    forall q | q in Shift(Observed(m, cells, a, d, b), o)
      ensures q in Observed(m, cells, b, e, a)
    {
      var p :| p in Observed(m, cells, a, d, b) && q == TupleSum(o, p);
      assert TupleSum(Offset(e), q) == p;
    }
    forall q | q in Observed(m, cells, b, e, a)
      ensures q in Shift(Observed(m, cells, a, d, b), o)
    {
      var p := TupleSum(Offset(e), q);
      assert TupleSum(o, p) == q;
      assert p in Observed(m, cells, a, d, b);
    }
  }

  /** Counts are symmetric under the opposite direction: a grid in which
      a sees b to its right has b seeing a to its left as often. Holds when
      the training map's keys are exactly the scanned cells. */
  lemma CountsSymmetric(counts: seq<seq<Counter>>, g: Grid, n: int)
    requires Tallies(counts, g, n)
    requires g.cells.Keys == Scanned(g.col, g.row)
    ensures forall a, d, b :: 0 <= a < n && 0 <= d < 8 && 0 <= b < n ==>
              Get(counts[a][d], b) == Get(counts[b][Opposite(d)], a)
  {
    var cells := Scanned(g.col, g.row);
    forall a, d, b | 0 <= a < n && 0 <= d < 8 && 0 <= b < n
      ensures Get(counts[a][d], b) == Get(counts[b][Opposite(d)], a)
    {
      ObservedMirror(g.cells, cells, a, d, b);
      ShiftCard(Observed(g.cells, cells, a, d, b), Offset(d));
    }
  }
}
