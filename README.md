# SKIRT dust emission library and SPH particle grid, in Dafny

This project models three parts of the SKIRT radiative transfer code and proves properties about them.

1. **The staggered process assigner** (`assigner.dfy`, module `Assigner`). This is a round-robin
   partition of the index range `[0, size)` over `NP` processes. The scheme can be repeated over
   several blocks of that size.
   - `assign` counts, index by index, the indices `t` with `t mod NP == rank`. It records the block
     size, this process's share of one block, and the total number of values.
   - `absoluteIndex`, `relativeIndex` and `rankForIndex` translate between this process's relative
     indices and the absolute indices shared by all processes.
   - The model proves that the assignment partitions the range, that the two translations are
     inverse to each other, and that they reduce to the documented formulas for one block.
2. **The dust emission library** (modules `Vectors`, `Tables`, `DustLibrary`, `AllCellsDustLib`).
   - A library policy maps each dust cell of this process to a library entry, or to `-1` for "no
     emission". `AllCellsDustLib` is the identity policy.
   - The emission calculator inverts that mapping into a multimap from library entry to absolute
     cell index, and counts the entries in use.
   - For each entry, its loop body:
     1. averages the mean radiation field of the entry's cells;
     2. asks for every dust component's emissivity in that field;
     3. adds the density-weighted emissivities onto each mapped cell's row of the output table;
     4. multiplies by the wavelength bin widths;
     5. normalises the row when its total is positive.
   - `DustLib::calculate` initialises or clears the table, runs the body for every entry in order,
     and then synchronises the table.
   - The model proves:
     - what the multimap holds;
     - that each body writes only the rows of its own cells;
     - that a normalised row sums to one;
     - after a whole calculation, exactly which spectrum every cell's row holds: its own entry's
       spectrum, or zero.
3. **The SPH gas particle grid** (`sphgrid.dfy`, module `SphGrid`). This is a non-uniform
   `m x m x m` grid over a set of smoothed particles.
   - `makegrid` finds the extent of the particles along one axis and bins the particle centres into
     `100 m` bins. It places the separation points where the cumulative count first exceeds
     `g * (n / m)`, closing the grid with `-infinity` and `+infinity`.
   - The constructor lists in every cell the particles whose sphere intersects it, and keeps the
     minimum, maximum and total list sizes.
   - `particlesFor` returns the list of the cell holding a point. For a box, it returns the
     duplicate-free union of the lists of the cells the box spans.
   - The model proves:
     - that the cell index is a bijection onto `[0, m^3)`;
     - that the placement of the separation points is the one the scan defines, and is unique;
     - that the filled points increase and lie within the extent;
     - that each list holds exactly the overlapping particles, once each and in order;
     - that the statistics bound and are attained by the lists;
     - that the box query returns exactly the particles listed in, equivalently overlapping, a cell
       of the spanned block.

Doubles are modelled as `real`. Where the code uses `±numeric_limits<double>::infinity()`, the
model uses the extended coordinate `Ext` (`NegInf | Fin(x) | PosInf`). Particle pointers are
modelled as particle indices; in the source they are addresses into one vector, so they are
ordered the same way.

The collaborators of the emission calculation become parameters, bundled in the `Physics` record:
- the wavelength grid and its bin widths;
- the dust system's mean intensities and densities;
- the dust emissivity.

These are functions the model does not look inside.

## Model

| member | source | states |
|---|---|---|
| Assigner.Counted | SKIRTcore/StaggeredAssigner.hpp:64-68 | the index-by-index count of `assign` never exceeds the range size |
| Assigner.CountedIsCardinality | SKIRTcore/StaggeredAssigner.hpp:64-68 | the count equals the number of `t` in `[0, n)` with `t mod NP == rank` |
| Assigner.CountedClosedForm | SKIRTcore/StaggeredAssigner.hpp:59-68 | the count equals the closed form `0` if `n <= rank`, else `(n-1-rank)/NP + 1` |
| Assigner.OwnedIndexBound | SKIRTcore/StaggeredAssigner.hpp:71-77 | relative index `j` of one block is in range iff its absolute index `rank + j*NP` is below the block size |
| Assigner.OwnedStep | SKIRTcore/StaggeredAssigner.hpp:64-68 | extending the range by index `n-1` adds one to the count of its owner and to no other rank's count |
| Assigner.StaggeredPartition | SKIRTcore/StaggeredAssigner.hpp:13-18 | the counts of all `NP` ranks add up to `n`: the assignment is a partition |
| Assigner.OwnerOf | SKIRTcore/StaggeredAssigner.hpp:87-91 | the owning rank of an index is below `NP` |
| Assigner.AbsoluteInRange | SKIRTcore/StaggeredAssigner.hpp:30-32 | the block layout puts relative index `u` in block `u / vib`, at offset `rank + (u mod vib)*NP`; the result is below `blocks*blocksize` and owned by `rank` |
| Assigner.StaggeredRoundTrip | SKIRTcore/StaggeredAssigner.hpp:79-85 | the inverse layout undoes the layout on every relative index |
| Assigner.UnstaggeredRoundTrip | SKIRTcore/StaggeredAssigner.hpp:71-77 | the layout undoes the inverse layout on every absolute index of this rank |
| Assigner.StaggeredAssigner.constructor | SKIRTcore/StaggeredAssigner.hpp:41-50 | a fresh assigner has the given `NP` and rank and is assigned nothing |
| Assigner.StaggeredAssigner.Assign | SKIRTcore/StaggeredAssigner.hpp:59-69 | records the block size and block count (one block when none is given); this process's share of one block is the number of `t < size` with `t mod NP == rank`, and `nvalues` is `blocks` times that |
| Assigner.StaggeredAssigner.AbsoluteIndex | SKIRTcore/StaggeredAssigner.hpp:71-77 | the absolute index lies below the total and is owned by this process |
| Assigner.StaggeredAssigner.RelativeIndex | SKIRTcore/StaggeredAssigner.hpp:79-85 | the relative index of an owned absolute index lies below `nvalues` |
| Assigner.StaggeredAssigner.RankForIndex | SKIRTcore/StaggeredAssigner.hpp:87-91 | the owner of an index is a valid rank |
| Assigner.StaggeredAssigner.Parallel | SKIRTcore/StaggeredAssigner.hpp:93-96 | always true |
| Assigner.RelativeAbsoluteRoundTrip | SKIRTcore/StaggeredAssigner.hpp:79-91 | `relativeIndex(absoluteIndex(u)) == u`, and `rankForIndex(absoluteIndex(u))` is this process's rank |
| Assigner.AbsoluteRelativeRoundTrip | SKIRTcore/StaggeredAssigner.hpp:71-85 | `absoluteIndex(relativeIndex(t)) == t` for every index this process owns |
| Assigner.AbsoluteIndexInjective | SKIRTcore/StaggeredAssigner.hpp:71-77 | distinct relative indices have distinct absolute indices |
| Assigner.SingleBlockFormulas | SKIRTcore/StaggeredAssigner.hpp:71-91 | with one block: `absoluteIndex(u) == rank + u*NP < n`, `rankForIndex(t) == t mod NP`, `relativeIndex(t) == (t - rank)/NP`, and the count is the cardinality above |
| Assigner.OwnerReachesIndex | SKIRTcore/StaggeredAssigner.hpp:87-91 | every absolute index owned by this process is the absolute index of one of its relative indices |
| Vectors.SumScale | SKIRTcore/DustLib.cpp:147-149 | scaling a vector scales its sum |
| Vectors.Normalised | SKIRTcore/DustLib.cpp:148-149 | a vector with positive sum becomes each element divided by that sum; a vector whose sum is zero or negative is left as it is |
| Vectors.NormalisedSumsToOne | SKIRTcore/DustLib.cpp:148-149 | a vector with positive sum, divided by that sum, sums to one |
| Tables.Table.Initialize | SKIRTcore/DustLib.cpp:177 | the table becomes initialised, with the given shape and every value zero |
| Tables.Table.Clear | SKIRTcore/DustLib.cpp:178 | every value becomes zero and the shape is kept |
| Tables.Table.SetRow | SKIRTcore/DustLib.cpp:141-149 | replaces one row; every other row and the shape stay as they were |
| Tables.Table.Sync | SKIRTcore/DustLib.cpp:218 | on one process the table is left unchanged |
| DustLibrary.Inverted | SKIRTcore/DustLib.cpp:84-92 | the multimap has at most one element per relative cell |
| DustLibrary.InvertedContents | SKIRTcore/DustLib.cpp:84-92 | the multimap holds `(key, value)` iff some relative cell `r` has `nv[r] == key` (so `key >= 0`) and `absoluteIndex(r) == value` |
| DustLibrary.Values | SKIRTcore/DustLib.cpp:107 | `values(n)` lists at most as many cells as the multimap holds pairs; which cells it lists is stated by ValuesContents |
| DustLibrary.Keys | SKIRTcore/DustLib.cpp:95 | `uniqueKeys()`: the set of library entries the multimap holds a pair for; which entries these are is stated by InvertedKeys |
| DustLibrary.InvertedValuesFrom | SKIRTcore/DustLib.cpp:87-92 | every element comes from a relative cell with a non-negative mapping value |
| DustLibrary.InvertedDistinct | SKIRTcore/DustLib.cpp:87-92 | no absolute cell index occurs twice in the multimap |
| DustLibrary.InvertedInTable | SKIRTcore/DustLib.cpp:90 | every stored cell index addresses a row of the table |
| DustLibrary.ValuesContents | SKIRTcore/DustLib.cpp:107 | `values(n)` lists a cell iff the multimap holds `(n, cell)` |
| DustLibrary.ValuesNoDuplicates | SKIRTcore/DustLib.cpp:107 | `values(n)` lists no cell twice |
| DustLibrary.EntryOf | SKIRTcore/DustLib.cpp:84-92 | the entry a cell is stored under is a library index or `-1` |
| DustLibrary.EntryOfSpec | SKIRTcore/DustLib.cpp:84-92 | with distinct values, the multimap holds `(n, m)` iff cell `m` is stored under entry `n` |
| DustLibrary.EntryOfAbsent | SKIRTcore/DustLib.cpp:91 | a cell the multimap does not hold has entry `-1` |
| DustLibrary.EntryOfInverted | SKIRTcore/DustLib.cpp:87-92 | the entry of `absoluteIndex(r)` is `nv[r]`, or `-1` when `nv[r]` is negative |
| DustLibrary.EntryOfUnmapped | SKIRTcore/DustLib.cpp:91 | a cell that no relative cell with a non-negative value reaches has entry `-1` |
| DustLibrary.InvertedKeys | SKIRTcore/DustLib.cpp:95 | the keys in use are exactly the distinct non-negative values of `nv` |
| DustLibrary.EntriesInUseBound | SKIRTcore/DustLib.cpp:95-97 | when every value of `nv` is below `Nlib`, at most `Nlib` entries are in use |
| DustLibrary.FieldSum | SKIRTcore/DustLib.cpp:125-127 | the accumulated field has one value per wavelength |
| DustLibrary.FieldSumElement | SKIRTcore/DustLib.cpp:125-127 | bin `i` of the accumulated field is the sum over the entry's cells of their field in bin `i` |
| DustLibrary.MeanField | SKIRTcore/DustLib.cpp:125-128 | the averaged field has one value per wavelength |
| DustLibrary.MeanFieldElement | SKIRTcore/DustLib.cpp:125-128 | bin `i` of the averaged field is the element-wise arithmetic mean over the entry's cells |
| DustLibrary.FieldSumUniform | SKIRTcore/DustLib.cpp:125-127 | cells sharing one field `J` accumulate `|mv|` times `J` |
| DustLibrary.MeanOfUniformField | SKIRTcore/DustLib.cpp:125-128 | the mean of cells sharing one field is that field |
| DustLibrary.Emissivities | SKIRTcore/DustLib.cpp:134-135 | one emissivity per dust component, each with one value per wavelength |
| DustLibrary.EntryEmissivities | SKIRTcore/DustLib.cpp:125-135 | the same, in the field averaged over the entry's cells |
| DustLibrary.Combined | SKIRTcore/DustLib.cpp:144 | the density-weighted sum of the component emissivities keeps the row's shape |
| DustLibrary.CombinedElement | SKIRTcore/DustLib.cpp:144 | bin `i` is the prior value plus the sum over components of emissivity times density |
| DustLibrary.CellRow | SKIRTcore/DustLib.cpp:141-149 | a cell's new row has one value per wavelength |
| DustLibrary.CellRowUnnormalised | SKIRTcore/DustLib.cpp:144-147 | before normalisation, bin `i` is (prior + weighted emissivities) times the bin width |
| DustLibrary.CellRowNormalised | SKIRTcore/DustLib.cpp:147-149 | with a positive total the row is divided by its total and sums to one; otherwise it is left unnormalised |
| DustLibrary.Emitted | SKIRTcore/DustLib.cpp:138-150 | writing the spectra of a list of cells keeps the table's shape |
| DustLibrary.EmittedStep | SKIRTcore/DustLib.cpp:138-150 | writing one more cell that was not yet written changes that cell's row and no other |
| DustLibrary.BodyEffect | SKIRTcore/DustLib.cpp:104-169 | the effect of one body keeps the table's shape |
| DustLibrary.BodyEffectAt | SKIRTcore/DustLib.cpp:104-169 | `body(n)` rewrites a row iff its cell is stored under `n`, and leaves every other row (all rows, when `n` has no cells) unchanged |
| DustLibrary.EntryRow | SKIRTcore/DustLib.cpp:111-150 | the row a cell of entry `n` receives has one value per wavelength |
| DustLibrary.CellAfter | SKIRTcore/DustLib.cpp:199 | a cell's row after bodies `0 .. k-1` has one value per wavelength |
| DustLibrary.Run | SKIRTcore/DustLib.cpp:199 | the table after bodies `0 .. k-1` keeps its shape |
| DustLibrary.RunZero | SKIRTcore/DustLib.cpp:199 | before any body the table is as it was |
| DustLibrary.RunStep | SKIRTcore/DustLib.cpp:199 | body `k` after bodies `0 .. k-1` gives the table after bodies `0 .. k` |
| DustLibrary.RunAdvance | SKIRTcore/DustLib.cpp:199 | the table after bodies `0 .. k-1`, followed by body `k`, is the table after bodies `0 .. k` |
| DustLibrary.CellAfterClosedForm | SKIRTcore/DustLib.cpp:138-141 | each cell is written at most once: after bodies `0 .. k-1` its row is its entry's spectrum if that entry is below `k`, and the prior row otherwise |
| DustLibrary.EmissionCalculator.constructor | SKIRTcore/DustLib.cpp:84-97 | the multimap is the inversion of `nv`, and the count in use is the number of distinct non-negative values, at most `Nlib` when all values are below it |
| DustLibrary.EmissionCalculator.AverageField | SKIRTcore/DustLib.cpp:125-128 | the accumulated, divided field is the mean field of the entry's cells |
| DustLibrary.EmissionCalculator.ComponentEmissivities | SKIRTcore/DustLib.cpp:134-135 | the per-component emissivities in the given field |
| DustLibrary.EmissionCalculator.Spectrum | SKIRTcore/DustLib.cpp:141-149 | the in-place accumulation, bin-width multiplication and conditional normalisation give the cell's row |
| DustLibrary.EmissionCalculator.WriteSpectra | SKIRTcore/DustLib.cpp:138-150 | the table becomes the table with each listed cell's row replaced by its spectrum |
| DustLibrary.EmissionCalculator.Body | SKIRTcore/DustLib.cpp:104-169 | the table becomes the effect of the body for entry `n` |
| DustLibrary.EmissionCalculator.Bodies | SKIRTcore/DustLib.cpp:199 | the bodies for entries `0 .. Nlib-1`, run in order, leave the table as their run from the prior rows, with its shape and status unchanged |
| DustLibrary.DustLib.constructor | SKIRTcore/DustLib.cpp:27-30 | a new library has an uninitialised table and no mapping |
| DustLibrary.DustLib.Calculate | SKIRTcore/DustLib.cpp:175-231 | initialises or clears the table, stores the mapping, runs the bodies for entries `0 .. Nlib-1` in order and syncs; the table is the run of those bodies from all zeros |
| DustLibrary.MappedCellLuminosity | SKIRTcore/DustLib.cpp:235-238 | after a calculation, the luminosity of relative cell `r` is its entry's spectrum when `0 <= nv[r] < Nlib`, and zero otherwise |
| DustLibrary.UnmappedCellLuminosity | SKIRTcore/DustLib.cpp:235-238 | a cell owned by this process that no mapped relative cell reaches has luminosity zero |
| DustLibrary.DustLib.Luminosity | SKIRTcore/DustLib.cpp:235-238 | the stored table value at cell `m` and wavelength `ell`; what that value is after a calculation is stated by MappedCellLuminosity and UnmappedCellLuminosity |
| AllCellsDustLib.Entries | SKIRTcore/AllCellsDustLib.cpp:22-25 | the number of entries is the cell assigner's `nvalues`, that is `blocks` times this process's share of one block |
| AllCellsDustLib.Mapping | SKIRTcore/AllCellsDustLib.cpp:29-35 | a mapping of length `nvalues` with `nv[m] == m`, every value in `[0, nvalues)` (never `-1`), and no two cells sharing an entry |
| AllCellsDustLib.IdentityValues | SKIRTcore/AllCellsDustLib.cpp:34 | under the identity mapping, entry `n` holds exactly the one cell `absoluteIndex(n)` |
| AllCellsDustLib.CalculateAllCells | SKIRTcore/AllCellsDustLib.cpp:22-35 | the library is calculated with one entry per cell and the identity mapping |
| AllCellsDustLib.OwnFieldLuminosity | SKIRTcore/AllCellsDustLib.cpp:29-35 | after the calculation, each cell's spectrum is the normalised spectrum computed from that cell's own radiation field |
| SphGrid.Index | SKIRTcore/SPHGasParticleGrid.cpp:19-22 | the index of a cell of the grid is below `m^3` |
| SphGrid.DecodeIndex | SKIRTcore/SPHGasParticleGrid.cpp:19-22 | decoding the index of a cell gives the cell back |
| SphGrid.IndexDecode | SKIRTcore/SPHGasParticleGrid.cpp:104 | every index below `m^3` is the index of a cell of the grid |
| SphGrid.IndexInjective | SKIRTcore/SPHGasParticleGrid.cpp:19-22 | distinct cells have distinct indices |
| SphGrid.Square | SKIRTcore/SPHGasParticleGrid.cpp:66-70 | the square of its argument |
| SphGrid.Intersects | SKIRTcore/SPHGasParticleGrid.cpp:77-90 | the source's clamped squared-distance test: `r^2` minus the squared distance to the box along each axis where the centre lies outside it, compared with zero; its geometric meaning is stated by IntersectsIffCloser and CentreInsideIntersects |
| SphGrid.CentreInsideIntersects | SKIRTcore/SPHGasParticleGrid.cpp:77-90 | a sphere with positive radius whose centre lies inside the box intersects it |
| SphGrid.IntersectsIffCloser | SKIRTcore/SPHGasParticleGrid.cpp:77-90 | for a finite box, `intersects` holds iff the squared distance from the centre to the box's nearest point is below `r^2` |
| SphGrid.AxisGapClamp | SKIRTcore/SPHGasParticleGrid.cpp:82-87 | the term subtracted along one axis is the squared distance to the nearest point of the interval |
| SphGrid.LocateClip | SKIRTcore/SPHGasParticleGrid.cpp:114-119 | the located interval is in `[0, len-2]`, its lower point is at most `v`, and no later point is |
| SphGrid.LocateMonotone | SKIRTcore/SPHGasParticleGrid.cpp:114-119 | locating a larger value never gives an earlier interval |
| SphGrid.LocateBrackets | SKIRTcore/SPHGasParticleGrid.cpp:171-173 | in a grid from `-inf` to `+inf`, the value lies within the interval it is located in |
| SphGrid.Range | SKIRTcore/SPHGasParticleGrid.cpp:32-38 | `cmin`/`cmax` are `+inf`/`-inf` for no particles; otherwise they bound every particle's extent `c ± h` and are attained |
| SphGrid.Histogram | SKIRTcore/SPHGasParticleGrid.cpp:41-45 | bin `b` counts the particles whose centre falls in bin `b`, and the bins add up to the number of particles |
| SphGrid.CumulUpdate | SKIRTcore/SPHGasParticleGrid.cpp:45 | incrementing bin `i` adds one to the cumulative count of every prefix that contains it |
| SphGrid.CumulMonotone | SKIRTcore/SPHGasParticleGrid.cpp:55 | the cumulative count never decreases |
| SphGrid.ScanQuiet | SKIRTcore/SPHGasParticleGrid.cpp:53-56 | a bin that stays at or below the next threshold extends the scan without placing a point |
| SphGrid.ScanCross | SKIRTcore/SPHGasParticleGrid.cpp:56-59 | a bin that crosses the next threshold receives the next separation point |
| SphGrid.CrossLeavesRoom | SKIRTcore/SPHGasParticleGrid.cpp:56-60 | a threshold that is crossed is never the last one, so a crossing always has a point left to place |
| SphGrid.CrossingsAtStop | SKIRTcore/SPHGasParticleGrid.cpp:60-61 | once `gridsize-1` points are placed the scan is complete |
| SphGrid.CrossingsAtEnd | SKIRTcore/SPHGasParticleGrid.cpp:53-62 | a scan that runs through every bin with fewer points is complete |
| SphGrid.Separations | SKIRTcore/SPHGasParticleGrid.cpp:48-63 | `gridsize+1` points from `-inf` to `+inf`; point `g` is the upper border of the first bin after point `g-1` whose cumulative count exceeds `g * percell`; the scan stops at `gridsize-1` points; unreached points keep the value 0 |
| SphGrid.PointsIncreasing | SKIRTcore/SPHGasParticleGrid.cpp:58 | points of later bins lie further up |
| SphGrid.PointWithin | SKIRTcore/SPHGasParticleGrid.cpp:41-42 | every bin's upper border lies in `(cmin, cmax]` |
| SphGrid.OrderedIncreasing | SKIRTcore/SPHGasParticleGrid.cpp:53-61 | earlier points are placed in earlier bins |
| SphGrid.CrossingsAgree | SKIRTcore/SPHGasParticleGrid.cpp:53-61 | two placements that both follow the scan agree on every common prefix |
| SphGrid.CrossingsUnique | SKIRTcore/SPHGasParticleGrid.cpp:53-61 | the scan has exactly one outcome |
| SphGrid.NothingPlaced | SKIRTcore/SPHGasParticleGrid.cpp:50-61 | with no particles, no separation point is placed |
| SphGrid.EmptyGrid | SKIRTcore/SPHGasParticleGrid.cpp:48-63 | with no particles the grid has only the two sentinels and zeros between them |
| SphGrid.CentresBinnable | SKIRTcore/SPHGasParticleGrid.cpp:32-45 | with particles of positive radius the range is non-empty and every centre falls in one of the bins |
| SphGrid.PlacedWithin | SKIRTcore/SPHGasParticleGrid.cpp:58 | the placed separation points lie in `(cmin, cmax]` and strictly increase |
| SphGrid.MakeGrid | SKIRTcore/SPHGasParticleGrid.cpp:26-64 | the grid has the sentinels and the scan's unique placement over the particle histogram; the placed points strictly increase and lie in `(cmin, cmax]` |
| SphGrid.CellList | SKIRTcore/SPHGasParticleGrid.cpp:108-131 | a cell's list after `n` particles has at most `n` elements |
| SphGrid.CellListContents | SKIRTcore/SPHGasParticleGrid.cpp:121-130 | a particle is in a cell's list iff its extent spans the cell and its sphere intersects the cell |
| SphGrid.CellListIncreasing | SKIRTcore/SPHGasParticleGrid.cpp:121-130 | particles are listed in increasing order, so none is added twice |
| SphGrid.OwnCellListed | SKIRTcore/SPHGasParticleGrid.cpp:108-131 | a particle with positive radius is listed in the cell that holds its centre |
| SphGrid.UpdateCell | SKIRTcore/SPHGasParticleGrid.cpp:129 | appending to one cell's list leaves every other cell's list as it was |
| SphGrid.AddRow | SKIRTcore/SPHGasParticleGrid.cpp:124-130 | appends the particle to each overlapped cell of one row; other lists are unchanged |
| SphGrid.AddPlane | SKIRTcore/SPHGasParticleGrid.cpp:123-130 | the same for one plane |
| SphGrid.AddParticle | SKIRTcore/SPHGasParticleGrid.cpp:110-130 | appends the particle to the list of exactly the cells it overlaps |
| SphGrid.FillLists | SKIRTcore/SPHGasParticleGrid.cpp:104-131 | `m^3` lists, where the list at `index(m,i,j,k)` holds, in order, exactly the particles overlapping cell `(i,j,k)` |
| SphGrid.Statistics | SKIRTcore/SPHGasParticleGrid.cpp:134-143 | the total is the sum of the list sizes; every size lies in `[pmin, pmax]`; `pmin` is attained or is `n`; `pmax` is attained or is 0 |
| SphGrid.RowContents | SKIRTcore/SPHGasParticleGrid.cpp:196-201 | the join of a row holds exactly the particles listed in one of its cells |
| SphGrid.PlaneContents | SKIRTcore/SPHGasParticleGrid.cpp:195-201 | the same for a plane |
| SphGrid.BlockContents | SKIRTcore/SPHGasParticleGrid.cpp:194-201 | the same for a block |
| SphGrid.JoinRow | SKIRTcore/SPHGasParticleGrid.cpp:196-201 | adds a row's lists to the set |
| SphGrid.JoinPlane | SKIRTcore/SPHGasParticleGrid.cpp:195-201 | adds a plane's lists to the set |
| SphGrid.JoinBlock | SKIRTcore/SPHGasParticleGrid.cpp:193-201 | the union of the block's lists |
| SphGrid.Ascending | SKIRTcore/SPHGasParticleGrid.cpp:204 | the set's elements in increasing order, each once |
| SphGrid.Join | SKIRTcore/SPHGasParticleGrid.cpp:193-204 | an increasing list holding exactly the particles listed in a cell of the block |
| SphGrid.ParticleGrid.constructor | SKIRTcore/SPHGasParticleGrid.cpp:95-144 | builds the three grids, fills the lists and computes the statistics for the given particles |
| SphGrid.ParticleGrid.MinParticlesPerCell | SKIRTcore/SPHGasParticleGrid.cpp:148-151 | no list is shorter, and some list has this size |
| SphGrid.ParticleGrid.MaxParticlesPerCell | SKIRTcore/SPHGasParticleGrid.cpp:155-158 | no list is longer, and some list has this size |
| SphGrid.ParticleGrid.TotalParticles | SKIRTcore/SPHGasParticleGrid.cpp:162-165 | the sum of all list sizes |
| SphGrid.ParticleGrid.ParticlesAt | SKIRTcore/SPHGasParticleGrid.cpp:169-175 | the list of overlapping particles of the cell located for the point |
| SphGrid.ParticleGrid.OwnParticleFound | SKIRTcore/SPHGasParticleGrid.cpp:169-175 | every particle is found at its own centre |
| SphGrid.ParticleGrid.ListsName | SKIRTcore/SPHGasParticleGrid.cpp:129 | every list names particles of the grid |
| SphGrid.ParticleGrid.SingleCell | SKIRTcore/SPHGasParticleGrid.cpp:190 | one cell's list is increasing and holds the particles listed in that cell |
| SphGrid.ParticleGrid.ParticlesInBox | SKIRTcore/SPHGasParticleGrid.cpp:179-205 | when the box lies within one cell, the result is that cell's list; in every case it is increasing (duplicate-free) and holds exactly the particles listed in a cell of the spanned block |
| SphGrid.ParticleGrid.ListedOverlaps | SKIRTcore/SPHGasParticleGrid.cpp:179-205 | a particle is listed in a block iff it overlaps one of the block's cells |

## Left out

- Communication across processes (`PeerToPeerCommunicator`, `comm->wait`, the exchange inside
  `ParallelTable::sync`) is not modelled. The model follows one process, which may be one of
  several: `wait` does nothing and `sync` leaves the table unchanged, so the rows of cells other
  processes own are not filled in. The ranks and `NP` are constructor parameters.
- DustLibrary.UnmappedCellLuminosity: stated only for cells this process owns. With `NP > 1` the
  rows of other processes' cells are filled by the exchange in `sync`. The model's `sync` leaves them
  at zero, so the model states nothing about the luminosity of those cells.
- The internals of `ParallelTable` (row/column distribution, ROW mode, the lambda assigner) are
  not modelled; the table is a plain sequence of rows of the full table shape.
- The log messages and the rate-limited log timer in the body are left out. They only write text
  and read the wall clock.
- The commented-out single-component branch, the commented-out `Parallel` call and entry assigner,
  and the debug dumps in `DustLib::calculate` are left out; the live code is the serial loop.
- The `setupSelfBefore` wiring, the `find<>` lookups and the default constructors are not
  modelled. The collaborators (wavelength grid, dust system, dust emissivity) are parameters.
- `StaggeredAssigner.cpp` is not part of this model; only its header is. For more than one block
  the model uses the layout the header's description implies: block `u / vib`, then
  `rank + (u mod vib) * NP` within the block.
- Assigner.StaggeredAssigner.RankForIndex: the header documents the owner as `t mod NP` for every
  absolute index, with no exception for several blocks. That formula disagrees with `assign`'s
  scheme "repeated `blocks` times" whenever `blocks > 1` and `blocksize mod NP != 0`. The model
  follows `assign`: the owner is `(t mod blocksize) mod NP`, which is `t mod NP` for indices of the
  first block and whenever `NP` divides the block size. Example (DocumentedOwnerDisagrees): with
  `NP = 2`, block size 3, two blocks and rank 0, relative index 2 becomes absolute index 3; the
  documented `rankForIndex(3)` is 1, the model's is 0. The owner clause of RelativeAbsoluteRoundTrip
  holds for the model's owner, not for the documented formula in such cases.
- `NR::locate_clip` is not part of this model. LocateClip stands in for it: it is the last interval
  whose lower point is at most the value, clipped to `[0, len-2]`, found by a downward scan rather
  than bisection.
- SphGrid.LocateClip: it agrees with a bisecting `locate_clip` only on ascending grids. A grid in
  which Separations leaves unreached points at 0 is not ascending: with grid size 4, one particle at
  `x = 0` with `h = 10` and seven at `x = 9.99` with `h = 0.001`, only point 1 (`10`) is placed, the
  x-grid is `[-inf, 10, 0, 0, +inf]`, and at `x = 9.99` bisection gives cell 0 where LocateClip gives
  cell 3. On such grids the model files particles in different cells than the source, and
  ParticlesAt and ParticlesInBox read a different cell's list. The properties proved about the lists
  (OwnCellListed, CellListContents, ListedOverlaps) hold for the model's locate, not for bisection
  on such grids.
- Floating point is modelled as exact `real` arithmetic: no rounding, overflow or NaN. The
  truncating `int()` cast of the bin index is `Floor`, which agrees with it on the non-negative
  values that occur.
- SphGrid.MakeGrid, SphGrid.ParticleGrid.constructor: both require every smoothing radius to be
  positive. With a zero radius, the particle at the top of the extent would fall in bin `nbins`,
  outside the histogram.
- SphGrid.Separations: separation points the scan does not reach keep the value 0, as in the
  resized array of the source, rather than a value inside the extent.
- Particles are named by index into the particle vector rather than by address. The source's
  pointer order is the order of the vector, so set order is index order.
- The geometry, instrument and grain-composition files are not part of this model.
- `Array` arithmetic is the element-wise model in `Vectors`; the SIMD/valarray implementation is
  left out.
