# Eden growth model in Dafny

A model of `eden.py`, a simulation of the Eden growth process on the
two-dimensional integer lattice, with proofs about it.

The store is a dictionary from lattice points to 0 (empty) or 1 (occupied).
- `create_base(n)` fills the square |x|, |y| < 4n with 0, and `RunModel(n)`
  seeds the origin with 1.
- `RunModel(n)` then runs n epochs of `UpdateModel`. Each epoch scans the square
  |x|, |y| < 3n in the order given by `quad_set(i, j)` for i, j = 0 .. 3n - 1.
  Axis points are visited more than once.
- Every visited 0 point goes through `UpdatePoint`. It tries the right, top, left
  and bottom neighbours in that order. Each occupied neighbour draws one roll,
  and the first roll below `prob` makes the point 1.
- `find_edges` splits the occupied points of the scan square into interior
  points and edge points. An interior point has a `nansum` of 4 over its
  neighbours.
- `Rin` and `Rout` are fixed-iteration halving searches for an inner and an
  outer radius. They use the disks built by `circle_set`, the vacancy test
  `check_rin`, and a count of occupied points.

The modules follow that structure:

- `Grid` (grid.dfy) holds the lattice and the scan order `Order(b)`. That is the
  exact sequence of points the nested loops visit, repetitions included.
  `OrderCovers` proves it visits exactly the square of bound b. `Grid` also holds
  `NearPoint`, the three-valued neighbour lookup, where a missing key reads as
  `Unknown` (NaN in the source), and `NanSum`.
- `Growth` (growth.dfy) holds `UpdatePoint`. It also holds the scan semantics
  `Visit`, `Sweep`, `Epoch` and `Epochs`, which are pure folds over the scan
  order, together with the invariants a sweep keeps.
- `Store` (store.dfy) holds the mutable store `class Lattice` and the
  module-level method `RunModel`:
  - the constructor `CreateBase` is proved to build `Base(n)`, by way of
    `Zeros`, the map that writing 0 along the scan order produces;
  - the method `UpdateModel` updates `cells` in place, one point at a time, and
    is proved equal to the fold `Epoch` of `Growth`;
  - `RunModel` creates a `Lattice`, seeds the origin and calls `UpdateModel`
    n times, and is proved equal to the fold `Epochs`.
- `Edges` (edges.dfy) holds `FindEdges`, proved against the fold `Classify`.
- `Radius` (radius.dfy) holds `CircleSet`, `CheckRin`, `CountOccupied`,
  `SumValues`, `Rin` and `Rout`.

How the model stands in for the source's runtime:
- **Rolls.** `rand.random()` is a stream `rolls: nat -> real` read through a
  cursor. `UpdateModel` returns the advanced cursor (the cursor passed in plus
  the rolls the epoch drew); `RunModel` returns the number of rolls drawn.
- **`prob`.** The global `prob` is a parameter.
- **Starting radius.** The radius `int(sqrt(2) * n + 1)` of `Rin` and `Rout` is
  the parameter `R`.
- **`circle_set`'s enumeration bound.** The source uses `int(sqrt(2) * r) + 1`.
  The model uses `EnumBound(r) = floor(r) + 1`. Both bounds exceed every
  coordinate of the disk of radius r, so both collect the same disk.
- **Radii.** Radii are exact reals.

The code updates the store in place: in `UpdateModel`, `M_new` is the same
dictionary as `M`. An epoch is therefore not a synchronous update of a frozen
copy of the store.
- A point sees the writes made earlier in the same pass.
- An axis point that is still 0 is tried again on each later visit in the same
  pass.

The model follows the code. `Store.InPlaceReachesDistanceTwo` shows the
consequence: with n = 1 and every roll succeeding, one epoch already occupies
(0, 2). None of the neighbours of (0, 2) is occupied when the epoch starts
(`Store.SeedFarFromTwo`).

`Rin` does not fall back to its last computed radius. It returns the most
recently tested radius that passed, or nothing (`None`) when none passed. The
radius computed in the last iteration is never tested. `Rout` returns the last
radius it appended on both of its return branches. The code raises no error of
its own. The only failure it can meet is a `KeyError` for a point missing from
the store.

## Model

| member | source | states |
|---|---|---|
| Grid.QuadSet | eden.py:18-19 | the four sign variants of (i, j), in the source's order; the result always has four entries, repetitions included when i or j is 0 |
| Grid.QuadSetExactly | eden.py:18-19 | quad_set(i, j) contains a point exactly when it is one of the four sign variants (±i, ±j) |
| Grid.Order | eden.py:26-28 | the scan order of the nested `range(b)` × `range(b)` × `quad_set` loops (also at eden.py lines 91-93, 119-121 and 144-146) makes 4b² visits, one per pass of the innermost loop; which points it visits is stated by `OrderCovers` |
| Grid.OrderCovers | eden.py:26-28 | the nested `range(b)` × `range(b)` × `quad_set` loops visit exactly the points of the square \|x\|, \|y\| < b |
| Grid.NearPoint | eden.py:33-61 | four readings (right, top, left, bottom); a reading is Unknown exactly when that neighbour's key is missing, and otherwise it is the stored value |
| Grid.NearPointInScope | eden.py:89-98 | on a store that holds the square of bound 4n, every neighbour lookup made at a point of the scan square of bound 3n finds its key |
| Grid.NanSum | eden.py:127 | `np.nansum` of four readings: unknown readings add nothing, so four unknown readings sum to 0, and four readings that are each unknown, 0 or 1 sum to between 0 and 4; when the sum is 4 is stated by `NanSumFour` |
| Grid.NanSumFour | eden.py:125-130 | on a 0/1 store, nansum of the neighbours is 4 exactly when all four neighbours are present and occupied, so a missing neighbour never makes a point interior |
| Growth.UpdatePoint | eden.py:65-86 | the cascade of four tests: the new value is 0 or 1, and between 0 and 4 rolls are drawn |
| Growth.UpdatePointSpec | eden.py:65-86 | the point becomes 1 exactly when some occupied neighbour's roll is below prob; the first such neighbour in the order right, top, left, bottom stops the trials after one roll per occupied neighbour up to it; otherwise the point stays 0 after one roll per occupied neighbour |
| Growth.NoOccupiedNeighbour | eden.py:76-86 | with no occupied neighbour the point stays 0 and no roll is drawn |
| Growth.GrowsFromNeighbour | eden.py:76-86 | a point becomes 1 only when it has an occupied neighbour |
| Growth.VisitCertain | eden.py:97-98 | when every roll is below prob, a visited 0 point with an occupied neighbour becomes 1 |
| Growth.Visit | eden.py:94-98 | one visit of the update loop: the key set is unchanged and every point other than the visited one keeps its value; `VisitCertain` and `SweepUntouched` state when the visited point changes |
| Growth.Sweep | eden.py:91-98 | the visits of a sequence of points in order, each seeing the writes before it; the key set is unchanged (`SweepConcat`, `SweepBinary`, `SweepKeepsNonZero` and `SweepUntouched` state the rest) |
| Growth.Epoch | eden.py:88-100 | one pass of UpdateModel, as a fold of Visit over the scan of bound 3n; the key set of the store is unchanged |
| Growth.Epochs | eden.py:108-109 | k passes of Epoch in a row, as the loop of RunModel makes them; the key set of the store is unchanged |
| Growth.SweepConcat | eden.py:91-98 | scanning a then b is the same as scanning a + b |
| Growth.SweepBinary | eden.py:91-98 | a scan keeps a 0/1 store 0/1 |
| Growth.SweepKeepsNonZero | eden.py:94-98 | a scan never changes a nonzero point |
| Growth.SweepUntouched | eden.py:91-98 | a scan changes only points it visits |
| Growth.SweepDraws | eden.py:73-83 | the roll cursor never moves backwards |
| Growth.SweepSupported | eden.py:91-98 | if every occupied point of the store other than the origin has an occupied neighbour, this still holds after a scan |
| Growth.SweepNoGrowth | eden.py:76-83 | with prob <= 0 and no negative roll, a scan changes nothing |
| Store.Base | eden.py:23-30 | the dictionary create_base(n) returns: its keys are exactly the points \|x\|, \|y\| < 4n, and every value is 0 |
| Store.ZerosBase | eden.py:23-30 | writing 0 along the scan of bound 4n gives the map holding 0 at exactly the points of the square of bound 4n |
| Store.Lattice.CreateBase | eden.py:23-30 | the new store holds 0 at exactly the points \|x\|, \|y\| < 4n |
| Store.Lattice.UpdateModel | eden.py:88-100 | the new store and roll cursor are the in-place sweep of the scan of bound 3n over the old store. The keys are unchanged, nonzero points are unchanged, points outside the scan square are unchanged, and 0/1-ness and neighbour support are preserved |
| Store.RunModel | eden.py:103-110 | the result is n epochs applied to the base store with the origin seeded. Its keys are the base square plus the origin, and the run invariant holds |
| Store.EpochsKeepInvariant | eden.py:103-110 | after any number of epochs: the origin is 1, every value is 0 or 1, every occupied point other than the origin has an occupied neighbour, and every occupied point other than the origin lies in the scan square of bound 3n |
| Store.RunModelFacts | eden.py:103-110 | the keys of a run's result are the base square plus the origin, the origin is occupied, and the run invariant holds |
| Store.NoGrowthRun | eden.py:103-110 | with prob <= 0 and no negative roll, a run leaves only the origin occupied |
| Store.SeedFarFromTwo | eden.py:105-107 | in the seeded store of one epoch, every neighbour of (0, 2) is present and holds 0 |
| Store.SweepReaches | eden.py:94-98 | if a scan ends at a 0 point that it has not visited before and that has an occupied neighbour, the point ends occupied when every roll succeeds |
| Store.ChainOfTwo | eden.py:91-98 | a scan that visits (0, 1) and later (0, 2), starting with only the origin occupied, ends with (0, 2) occupied when every roll succeeds |
| Store.InPlaceReachesDistanceTwo | eden.py:90-98 | with n = 1 and every roll below prob, one in-place epoch occupies (0, 2), two steps away from the seed |
| Edges.Classify | eden.py:119-130 | the classification loop as a fold over the scanned points: every point put in interior or in edges was scanned, holds 1 in the store and is recorded with value 1; which of the two it goes to is stated by `ClassifyExactly` |
| Edges.ClassifyExactly | eden.py:119-130 | after scanning any sequence of points, interior holds exactly the occupied points scanned whose nansum is 4, edges holds exactly the other occupied points scanned, and every value in both is 1 |
| Edges.FindEdges | eden.py:114-132 | interior holds exactly the occupied points of the square of bound 3n with nansum 4, and edge_set holds exactly its other occupied points. Both hold the value 1, they are disjoint, and together they are all the occupied points of the square |
| Radius.EnumBound | eden.py:144-145 | the enumeration bound of circle_set lies above r, like int(sqrt(2) * r) + 1 does |
| Radius.DiskWithinBound | eden.py:144-150 | an enumeration bound above r reaches every point of the disk of radius r |
| Radius.CircleSet | eden.py:142-154 | C holds exactly the points with a^2 + b^2 <= r^2, each with its value in the store |
| Radius.CheckRin | eden.py:135-140 | the result is true exactly when no value of C is 0 |
| Radius.CountOccupied | eden.py:193-196 | count is the number of points of C holding 1 |
| Radius.SumValues | eden.py:183 | m is the sum of the store's values; it does not depend on the iteration order (SumOnRemove) |
| Radius.SumOfBinary | eden.py:183 | on a 0/1 store, the sum of the values is the number of occupied points |
| Radius.EnclosesIff | eden.py:183-198 | on a 0/1 store, the test count == m passes exactly when every occupied point of the store lies in the disk |
| Radius.StepStaysWithin | eden.py:167-172 | after the step of iteration i the radius stays within [R/2^i, 2R - R/2^i], so it never becomes negative |
| Radius.TestedDiskInStore | eden.py:164-175 | a radius within the bounds of iteration k has its whole disk in any store holding the origin and the points strictly inside radius 2R, so no lookup of circle_set fails |
| Radius.SquareStoreHoldsSearchDomain | eden.py:105-107 | a store holding the square of bound 4n and the origin, as RunModel(n) leaves it, holds the origin and the points strictly inside radius 2R for every R <= 2n |
| Radius.Rin | eden.py:157-176 | precision - 1 radii are tested (precision defaults to 6). The first is R, and each next radius is the previous one plus R/2^i if it passed and minus R/2^i if it failed. The k-th lies in [R/2^k, 2R - R/2^k]. The result is None exactly when no tested radius passed; otherwise it is a tested radius that passed and after which no tested radius passed |
| Radius.Rout | eden.py:179-212 | the list of radii starts at R and has max(precision, 1) entries (precision defaults to 5). Each next radius is the previous one minus R/2^i if its disk held all occupied points, and plus R/2^i otherwise. The k-th lies in [R/2^k, 2R - R/2^k], and the result is the last radius in the list on both return branches |

## Left out

- Plotting, `estimate_r`, `long_term` and the `__main__` block are outside the modelled core: they draw figures or repeat `RunModel` and the radius searches over many trials.
- `rand.random()` is a parameter stream `rolls`; the model says nothing about its distribution.
- The global `prob` is a parameter.
- `int(sqrt(2) * n + 1)` in `Rin` and `Rout` is the parameter `R`, because the square root is not computed exactly.
- `int(sqrt(2) * r) + 1` in `circle_set` is replaced by `floor(r) + 1`. The collected disk is the same.
- Floating-point rounding of the radii is not modelled; radii are exact reals.
- Radius.Rin: every tested radius is below 2R, or 0 when R is 0. The precondition asks for the origin and the points strictly inside radius 2R. A store missing one of those points, which makes the source raise `KeyError` only if a tested disk reaches the point, is excluded rather than modelled as an error.
- Radius.Rout: the same precondition as Rin, for the same reason.
- Rin and Rout return the radius only; the lists of tested radii are ghost outputs that state the contracts.
- Radius.CircleSet: a `KeyError` for a disk point that is missing from the store is excluded by a precondition instead of being modelled as an error.
- Store.Lattice.UpdateModel: a `KeyError` for a scan point missing from the store is excluded by a precondition. `RunModel` always meets it.
- Edges.FindEdges: a `KeyError` for a scan point missing from the store is excluded by a precondition.
- Rin and Rout are not proved to satisfy Rin <= Rout. The code does not guarantee it: each search stops after a fixed number of halvings, whatever its tests found.
- n is a `nat` in `Base`, `CreateBase`, `UpdateModel`, `RunModel` and `FindEdges`. For a negative n the source's ranges are empty, so it behaves as for n = 0: `RunModel` returns the store holding 1 at the origin only, and `find_edges` returns two empty dictionaries.
- Rin, Rout: the starting radius R is a `nat`. In the source R = int(√2·n + 1) is negative for n ≤ −2, and the model does not cover that case.
- The values of the store are ints. Values other than 0 and 1 are allowed by the types, and the lemmas that need 0/1 values say so.
