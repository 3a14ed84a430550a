# tile-image-generator, modelled in Dafny

The system cuts a tiled picture into its distinct tiles and describes the picture as a grid of tile ids. From that grid it learns, for every tile and each of eight neighbour directions, how often each other tile was seen there. It then synthesises new grids cell by cell. Each new cell's tile is drawn among the tiles seen next to its already placed neighbours, weighted by how often they were seen.

The model has five modules:

- `Directions` (directions.dfy) holds the eight neighbour offsets with their stable indices and the inverse-direction table. It proves that every direction has an opposite and that the table points back. `TupleSum` is `_tuple_sum` (main.py:105-108), the component-wise sum of two pairs. Both the counting loop (main.py:124) and the neighbour-gathering loop of `generate` (main.py:196) call it, and so do `ComputeCounts` and `AdjacentConstraints`.
- `Adjacency` (adjacency.dfy) holds the training grid (`Grid`: shape plus a position to tile-id map). It also holds `ComputeCounts`, the counting loop, which is proved to produce exactly the number of sightings of every (tile, direction, tile) triple. It then proves what the table means: keys are observed pairs, ids are in range, and counts are symmetric under the opposite direction.
- `Sampling` (sampling.dfy) holds the weighted draw and the intersection and weighting step of `coupled_markov_chain`. The draw's randomness is abstracted to "some key of the table".
- `Generator` (generator.dfy) holds class `TiledImageGenerator` with `Wavefunction`, `CoupledMarkovChain`, `Generate` and `Generate2`. A draw from an empty table is an explicit `EmptyDistribution` failure. An empty intersection is an explicit `Contradiction` failure. Every grid of the row-by-row generator (`Generate`, `GenerateInShape`) is proved locally consistent: each placed tile was seen in training at the same offset from each of its backward neighbours. Those are (h, k - 1), which sees (h, k) in direction 3, and (h - 1, k), which sees it in direction 0. The 2x2 diagonal generator `Generate2` does not have this property: its index pairs [2, 3] and [1, 0] do not lead to the cells (1, 0) and (0, 1) they fill (see Findings).
- `Processor` (processor.dfy) holds the tile de-duplication of `TiledImageProcessor`. It works over an abstract crop function, so the picture is any function from a pixel box to a comparable value. It proves that the tile list holds the first occurrences in scan order, with no repeats. It also proves that `Mapping` yields a grid the generator can train on.

Random choices are parameters:

- The seed tile that `random.choice(range(n))` picks is the `seed` argument.
- The Dirichlet-then-categorical draw is a nondeterministic pick of some key of the weight table.

Behaviour of the code that the model keeps:

- The code has no fallback draw for a cell without placed neighbours. `GatherBackward` proves none is needed: every non-seed cell in the scan has at least one placed neighbour.
- `generate` keys its cells `(h, k)` with `h < row`. This is kept as written and reported under Findings.
- The code does not reject empty shapes. `Generate` with `row <= 0` or `col <= 0` returns the seed cell alone.
- In the code an empty intersection is an `AssertionError`. In the model it is a `Contradiction` result. The partial grid is dropped, as the uncaught exception drops it.
- In the code a draw from an empty table raises `ValueError`: `dirichlet([])` gives an empty vector, and `choice` refuses it (main.py:132-137). `generate_2` reaches this at main.py:223 when the seed's direction-7 table is empty. In the model it is an `EmptyDistribution` result.

## Model

| member | source | states |
|---|---|---|
| Directions.Opposite | main.py:100-101 | every direction has one whose offset is the negation of its own; orthogonal stays orthogonal; on the orthogonal four it is the inverse-neighbour table's entry |
| Directions.OppositeInvolutive | main.py:100-101 | the opposite of the opposite direction is the direction itself |
| Directions.InverseNeighborPointsBack | main.py:186-187 | the inverse table is defined on exactly the four orthogonal offsets, and the direction it gives leads back along the negated offset |
| Adjacency.CountStep | main.py:123-127 | counting one direction of a cell adds exactly one sighting, of the neighbour's tile, when the neighbour is in the map, and none otherwise |
| Adjacency.ComputeCounts | main.py:110-129 | the table has n rows of eight counters; counts[a][d][b] is exactly the number of scanned cells holding a whose neighbour in direction d holds b; every stored count is positive |
| Adjacency.KeyIffObserved | main.py:121-127 | b is a key of counts[a][d] if and only if some scanned cell holding a has b as its neighbour in direction d |
| Adjacency.TalliedKeysBelow | main.py:119-127 | every tile id stored in the table lies in [0, n) when the training grid's ids do |
| Adjacency.ObservedMirror | main.py:121-127 | when the training map has no keys beyond the scanned cells, moving the cells that see (a, d, b) one step along d gives exactly the cells that see (b, opposite of d, a) |
| Adjacency.CountsSymmetric | main.py:119-129 | for a grid whose keys are its scanned cells, a is seen next to b in direction d as often as b is seen next to a in the opposite direction |
| Sampling.Choice | main.py:132-137 | the draw returns a key of the weight table it is given |
| Sampling.ValidTileCounts | main.py:162-170 | the surviving ids are exactly the keys common to all constraint tables, each weighted by the sum of its counts over the tables |
| Sampling.WeightAtLeastLength | main.py:168-170 | an id present with a positive count in every table weighs at least one per table |
| Sampling.DisjointTablesContradict | main.py:162-164 | two tables with disjoint keys leave no surviving id |
| Generator.GatherPointsBack | main.py:193-200 | the gathered constraints number at most four, and each names a placed orthogonal neighbour together with the direction leading from it back to the cell |
| Generator.GatherBackward | main.py:189-200 | in the scan order of generate the constraints of (h, k) are exactly (h, k - 1) with direction 3, then (h - 1, k) with direction 0, where they exist; there is at least one unless the cell is (0, 0) |
| Generator.AdjacentConstraints | main.py:193-200 | the gathering loop returns the constraint lists of the cell |
| Generator.NeighborsPlaced | main.py:189-191 | when the scan reaches an empty cell (h, k), its backward neighbours (h, k - 1) and (h - 1, k) are placed exactly when they are in the grid, and (h, k + 1) and (h + 1, k) are not placed |
| Generator.ConsistentPairsObserved | main.py:195-202 | in a locally consistent grid every cell and either backward neighbour repeat a pair of tiles seen at the same offset in the training grid |
| Generator.TransposedKeys | main.py:184-189 | for generate(1, 2) the scan produces key (0, 1), which lies outside the one-row grid its shape names, and never produces (1, 0), which lies inside it |
| Generator.Generate2TablesMisaligned | main.py:229-238 | the tables generate_2 consults for (1, 0) and (0, 1) are in directions that lead from (0, 0) and (1, 1) to other cells |
| Generator.Generate2DrawsMirrored | main.py:229-238 | for a training grid whose keys are its scanned cells, the seed's direction-2 table holds exactly the tiles seen with the seed to their right, and its direction-1 table exactly those seen with the seed below them |
| Generator.InShapeGridSymmetric | main.py:116-127 | retraining on a grid of positive shape returned by the corrected scan gives a table that is symmetric under the opposite direction |
| Generator.TiledImageGenerator.constructor | main.py:95-103 | the table built from a trainable grid tallies that grid and stores only ids in [0, n) |
| Generator.TiledImageGenerator.Wavefunction | main.py:131-137 | the draw fails, with EmptyDistribution, exactly when the table is empty; otherwise it returns a key of that table; a table with one key always yields that key |
| Generator.TiledImageGenerator.CoupledMarkovChain | main.py:139-176 | the draw fails, with Contradiction, exactly when the zipped constraint tables share no key; otherwise the result is in range and a key of every table; a single common key is always returned |
| Generator.TiledImageGenerator.SurvivorWeightPositive | main.py:166-175 | every surviving id's summed weight is at least the number of constraints, so every Dirichlet parameter is positive |
| Generator.TiledImageGenerator.ConstraintsAreBackwardTables | main.py:193-202 | the constraint lists the scan hands to coupled_markov_chain select exactly the tables of the cell's placed backward neighbours, in the directions leading to the cell |
| Generator.TiledImageGenerator.ResolvableTablesMeet | main.py:162-172 | when every table below a tile and every table to a tile's right is non-empty and any two share a tile, the backward tables of any cell share a tile |
| Generator.TiledImageGenerator.FillScan | main.py:180-202 | on success the scan fills the seed cell and every cell of the rectangle, keeps the seed, stores ids in range and leaves the grid locally consistent; it fails only with Contradiction and only at a stuck cell: all cells before it placed and consistent, and the tables of its backward neighbours sharing no tile; it always succeeds when the table is always resolvable |
| Generator.TiledImageGenerator.Generate | main.py:178-204 | as written: keys are (0, 0) and every (h, k) with h < row and k < col; the seed sits at (0, 0); ids are in range; every tile agrees with its backward neighbours; a failure is a Contradiction at a stuck cell of the row x col scan; success is guaranteed when the table is always resolvable |
| Generator.TiledImageGenerator.GenerateInShape | main.py:178-204 | the corrected scan: keys are the seed and exactly the cells the shape names, so the result is trainable, and it stays locally consistent; a failure is a Contradiction at a stuck cell of the col x row scan; success is guaranteed when the table is always resolvable |
| Generator.TiledImageGenerator.PlaceKeepsConsistent | main.py:201-202 | placing at an empty cell a tile found in its backward neighbours' tables, in the directions leading from them to the cell, keeps the grid locally consistent |
| Generator.TiledImageGenerator.Diagonal | main.py:206-240 | the diagonal bootstrap for any four directions: EmptyDistribution exactly when the seed's direction-7 table is empty; any other failure is a Contradiction witnessed by an incompatible diagonal tile; success is guaranteed when every diagonal candidate is compatible; on success the 2x2 grid holds the seed, a diagonal tile from table 7, and two tiles each found in both tables they are drawn from |
| Generator.TiledImageGenerator.Generate2 | main.py:206-240 | as written, with the literal directions [2, 3] for (1, 0) and [1, 0] for (0, 1): the failure cases and success guarantee above, and on success the 2x2 grid with each drawn tile found in the tables of those directions |
| Generator.TiledImageGenerator.Generate2Aligned | main.py:206-240 | the corrected bootstrap: same failure cases, and on success every drawn tile was seen in training at the offset that leads from each tile it was drawn against to its own cell |
| Processor.FirstOccurrencesDistinct | main.py:33-35 | a list of first occurrences repeats no tile |
| Processor.ImageToTiles | main.py:26-37 | the list holds every tile of the scanned rectangle, each at its first position in scan order, in order of first occurrence, without repeats |
| Processor.IndexOf | main.py:61 | the index returned is the first position holding the value |
| Processor.TiledImageProcessor.constructor | main.py:10-24 | the shape is the floor quotient of the picture size by the tile size, and the tile list is the de-duplicated scan |
| Processor.TiledImageProcessor.TileId | main.py:58-61 | the id of a listed tile is the first position holding it |
| Processor.TiledImageProcessor.TileIdOfIndex | main.py:58-61 | since the list has no repeats, the id of the tile at index i is i |
| Processor.IdGrid | main.py:70-72 | the loop gives every tile position of the picture, and no other key, the first index of its tile in the list |
| Processor.TiledImageProcessor.TilesCoverPicture | main.py:26-37 | every tile of the picture is in the de-duplicated list |
| Processor.TiledImageProcessor.Mapping | main.py:63-74 | the grid has the picture's shape, a key for exactly every tile position, and at each position the id (first index) of the tile cropped there; it is trainable and its keys are its scanned cells |

## Left out

- Picture input and output (`Image.open`, pixel crops, `save_tilesheet`, `mapping_to_image`) is not modelled. A picture is an abstract crop function from a pixel box to a value compared by equality.
- Sampling.Choice: the Dirichlet sample and the categorical draw are not modelled, because floating point and randomness lie outside the model. Only "the result is a key of the table" is stated, not its probability.
- The global random generator is not modelled. The seed tile is a parameter `seed` with `0 <= seed < n`. With `n == 0`, `random.choice` would raise an error, and the model excludes that case by its precondition.
- The grid's shape, which the source stores under an `'info'` key of the same dictionary, is the `row` and `col` fields of `Grid`.
- `_all_tiles` (main.py:39-48) is folded into `Mapping`: it performs the same scan and the same crops.
- Tile ids and direction indices outside their ranges are excluded by preconditions. Python would raise an error for them or, for a negative id, index from the end of the list.
- Processor.TiledImageProcessor.constructor requires non-zero tile sizes. The source would divide by zero.
- Generator.TiledImageGenerator.Generate: local consistency covers only the two backward orthogonal neighbours, because those are the only constraints the source checks. The diagonal neighbours and the two neighbours placed later are not constrained.
- Generator.TiledImageGenerator.CoupledMarkovChain requires at least one (tile, direction) pair. With an empty zip the source raises `IndexError` at `counts[0]` (main.py:162); that error path is not modelled. No caller inside the generator passes an empty list.
- Processor.TiledImageProcessor.TileId requires the tile to be listed. The source's `assert tile in self.tile_list` (main.py:59) fails with `AssertionError` otherwise; that error path is not modelled. `Mapping` only asks for tiles of the picture, which are always listed.
- Adjacency.Trainable asks every scanned cell to be a key of the training map. With a cell missing, the source raises `KeyError` at main.py:122; that error path is not modelled.
- Adjacency.Trainable also asks every value of the training map to be an id in [0, n), including values at keys outside the scanned rectangle. The source reads those values only as neighbour tiles (main.py:125-127) and accepts any value there.
- Every grid `Mapping` produces meets both requirements of Adjacency.Trainable.
- The module-level script (main.py:243-246) is not modelled. It opens a file and builds the two objects.

## Findings

| source | as written | input that shows it | evidently intended | confidence | as-written member | corrected member |
|---|---|---|---|---|---|---|
| main.py:189 | `generate(row, col)` scans `product(range(row), range(col))` and stores `(h, k)` with `h < row`, but records the shape as `row`/`col`. The training grid, `_compute_counts` and `mapping_to_image` take the first coordinate below `col`. | `generate(1, 2)`: it fills (0, 1), which lies outside a one-row grid, and never fills (1, 0) | scan `product(range(col), range(row))`, so the keys are the cells the shape names | medium, not executed | Generator.TiledImageGenerator.Generate, Generator.TransposedKeys | Generator.TiledImageGenerator.GenerateInShape |
| main.py:229-238 | `generate_2` draws (1, 0) from `counts[seed][2]` and `counts[s][3]`, and (0, 1) from `counts[seed][1]` and `counts[s][0]`, where s is the tile at (1, 1). Directions 2, 3, 1 and 0 lead from (0, 0) and (1, 1) to (-1, 0), (1, 2), (0, -1) and (2, 1), not to the cells being filled. For a training grid whose keys are its cells, the tile placed right of the seed is one seen with the seed on its right. | training grid of 3x3 cells with tile (x - y) mod 3, seed 0: every table involved has a single key, so the draws are forced to (1, 1) = 0, (1, 0) = 2, (0, 1) = 1, while the right neighbour of tile 0 in training is always 1 | consult the tables in the directions leading to the cell being drawn: [0, 1] for (1, 0) and [3, 2] for (0, 1) | high, not executed | Generator.TiledImageGenerator.Generate2, Generator.Generate2TablesMisaligned, Generator.Generate2DrawsMirrored | Generator.TiledImageGenerator.Generate2Aligned |
