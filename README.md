# D2Q9 lattice grid of BALBM, modelled in Dafny

This project models the grid bookkeeping of the `Lattice` class of BALBM, a
lattice Boltzmann flow solver that uses the nine-velocity D2Q9 scheme. The
class lives in `include/lattice.hh`. A lattice of `ni x nj` cells owns:

- two flat population buffers of `ni*nj*9` entries, "current" (`spf_`) and
  "next" (`spftemp_`);
- a table of `ni*nj` node-descriptor handles, one per cell;
- the static D2Q9 geometry.

Streaming and collision are sweeps over rectangles of cells. Each sweep hands
every cell to that cell's node descriptor. After each step the two buffers
are swapped by exchanging the pointers.

Modules:

- `Machine` (machine.dfy): the 32-bit `unsigned` and `int` types. Unsigned
  wrap-around and the signed/unsigned conversions are written out.
- `Results` (results.dfy): `Option` and `Outcome`. `check_bounds` throws,
  and a pointer can be null; these types model both.
- `D2Q9` (d2q9.dfy):
  - the direction numbering of the class diagram, the number of directions
    `num_k()` (the constant `NumK`, 9) and the direction vectors;
  - `c(k, comp)` as intended and as written;
  - the opposite direction of each direction;
  - `dx()`, `dt()` and `c()`.
- `Layout` (layout.dfy):
  - the private layout `(i*nj + j)*9 + k` used by `pf_`, `f_`, `pft_`,
    `ft_`, with its range, injectivity and inverse;
  - the public layout `ni*(i*nj + j) + k` used by `f`, `ftemp`;
  - the descriptor slot `nj*i + j`.
- `Sweep` (sweep.dfy):
  - the visit order of the nested region loops: row-major, each cell
    exactly once;
  - the region the whole-grid forms pass, as written and as intended.
- `LatticeGrid` (lattice.dfy): class `Lattice`. Its fields are the two
  buffers as `array<real>`, the descriptor table as a `seq`, and a ghost
  `trace` of per-cell calls. `Valid()` is the size invariant. The methods
  are the header's mutators.

Population values are `real`, and no arithmetic is done on them. The
per-cell `stream` and `collide_and_bound` calls of a node descriptor are
modelled as one `Call` appended to `trace`. The region and whole-grid
methods therefore state which cells are visited and in what order. The
external multiscale map, the collision manager and the descriptor handles
are opaque references (`MultiscaleMapRef`, `CollisionManagerRef`,
`NodeDescRef`).

Two points of the header's own behaviour that the model keeps:

- `set_node_desc` checks nothing about `(i, j)`: it needs only its slot
  `nj*i + j` to lie inside the table, so `SetNodeDesc` requires that and no
  more.
- `in_bounds` takes `int` and `check_bounds` takes `unsigned`. The implicit
  conversions between the two are modelled (`Machine.ToSigned`,
  `Machine.ToUnsigned`).

## Model

| member | source | states |
|---|---|---|
| `Machine.Wrap` | include/lattice.hh:61-66 | the value of an `unsigned` expression such as `ni * nj * num_k()`: equal to the mathematical value when that is below 2^32, and congruent to it modulo 2^32 always |
| `Machine.ToSigned` | include/lattice.hh:166-167 | passing an `unsigned` index to `in_bounds`' `int` parameter keeps values below 2^31 and makes larger ones negative |
| `Machine.ToUnsigned` | include/lattice.hh:163-164 | comparing an `int` index with an `unsigned` size keeps non-negative values and makes negative ones at least 2^31 |
| `Machine.ConversionRoundTrip` | include/lattice.hh:163-167 | the two conversions are inverse to each other |
| `D2Q9.Velocity` | include/lattice.hh:44-52 | row k of `lat_vecs_`: the (x, y) step of direction k in the class diagram, x to the right and y upward |
| `D2Q9.Opposite` | include/lattice.hh:44-52 | the direction drawn across the centre from k (0 for the rest direction) |
| `D2Q9.Dx` | include/lattice.hh:83 | `dx()`: the lattice spacing 1.0 |
| `D2Q9.Dt` | include/lattice.hh:84 | `dt()`: the time step 1.0 |
| `D2Q9.LatticeSpeed` | include/lattice.hh:85 | `c()`: the lattice speed dx()/dt() |
| `D2Q9.C` | include/lattice.hh:119-121 | `c(k, comp)` as intended: a component of direction k's vector, in -1..1, zero for the rest direction |
| `D2Q9.CAsWritten` | include/lattice.hh:116-121 | `c(k, comp)` as written reads row 2k of the 9-row table, which exists only for k <= 4 |
| `D2Q9.CAsWrittenMismatch` | include/lattice.hh:116-118 | as written, `c(1, 0)` yields 0 where direction 1's x component is 1, and the written and intended values agree only for k = 0 |
| `D2Q9.OppositeReverses` | include/lattice.hh:44-52 | the opposite of a direction has the negated vector |
| `D2Q9.OppositePairs` | include/lattice.hh:44-52 | the diagram's pairs 1/3, 2/4, 5/7 and 6/8 have negated vectors, and each pair is related by `Opposite` |
| `D2Q9.OppositeInvolution` | include/lattice.hh:44-52 | the opposite of the opposite is the direction itself |
| `D2Q9.OppositeUnique` | include/lattice.hh:44-52 | a direction's opposite is the only direction whose vector is the negated one (both directions of the iff) |
| `D2Q9.RestDirection` | include/lattice.hh:44-52 | direction 0, and no other, has the zero vector |
| `D2Q9.VelocityInjective` | include/lattice.hh:44-52 | the nine directions have nine distinct vectors |
| `D2Q9.AxisAndDiagonal` | include/lattice.hh:44-52 | directions 1..4 move along exactly one axis; directions 5..8 move along both |
| `D2Q9.LatticeUnits` | include/lattice.hh:83-85 | dx() = dt() = c() = 1 |
| `Layout.BufferLength` | include/lattice.hh:63-64 | the length `ni * nj * num_k()` both population buffers are allocated with, in wrapping unsigned arithmetic |
| `Layout.TableLength` | include/lattice.hh:65 | the length `ni * nj` of the descriptor table, in wrapping unsigned arithmetic |
| `Layout.CellBase` | include/lattice.hh:187-189 | the index `(i * nj_ + j) * num_k()` at which `pf_(i, j)` (and `pft_(i, j)`, lines 193-195) points, in wrapping unsigned arithmetic |
| `Layout.PrivateOffset` | include/lattice.hh:190-192 | the index `f_(i, j, k)` (and `ft_`, lines 196-198) reads: `pf_(i, j) + k`, a pointer offset that does not wrap |
| `Layout.PublicOffset` | include/lattice.hh:92-98 | the index `ni_ * (i * nj_ + j) + k` that `f` and `ftemp` read, in wrapping unsigned arithmetic |
| `Layout.DescSlot` | include/lattice.hh:102-105 | the slot `nj_ * i + j` of the descriptor table that `node_desc` reads and `set_node_desc` (lines 111, 113) writes |
| `Layout.LengthsExact` | include/lattice.hh:63-65 | when ni*nj*9 fits in unsigned, the buffers get exactly ni*nj*9 entries and the descriptor table ni*nj |
| `Layout.CellIndexInRange` | include/lattice.hh:187-188 | an in-bounds cell's index i*nj + j is below ni*nj, and its 9-entry block ends inside the buffer |
| `Layout.PrivateOffsetInRange` | include/lattice.hh:187-198 | for in-bounds (i, j, k), the offset of f_/ft_ is (i*nj + j)*9 + k without wrap-around and below the buffer length; the descriptor slot is the cell index below the table length; the offset is 9 times the slot plus k |
| `Layout.OffsetRoundTrip` | include/lattice.hh:187-198 | reading an in-bounds offset backwards recovers (i, j, k) |
| `Layout.PrivateOffsetInjective` | include/lattice.hh:187-198 | distinct in-bounds (i, j, k) have distinct offsets |
| `Layout.OffsetOnto` | include/lattice.hh:187-198 | every buffer offset is the offset of some in-bounds (i, j, k), so the layout is a bijection |
| `Layout.DescSlotInjective` | include/lattice.hh:102-115 | distinct in-bounds cells have distinct descriptor slots |
| `Layout.SmallDims` | include/lattice.hh:61-66 | on a grid whose sizes fit, a non-trivial dimension is below 2^31 |
| `Layout.PublicMatchesPrivateForNine` | include/lattice.hh:92-98 | with ni = 9 the public offset of f/ftemp equals the private one and lies inside the buffer |
| `Layout.PublicAgreesOnlyForNine` | include/lattice.hh:92-98 | on a grid of at least two cells, the public and private offsets agree for all in-bounds (i, j, k) iff ni = 9 |
| `Layout.PublicOffsetOutOfBuffer` | include/lattice.hh:92-94 | on a 10 x 1 grid, f(9, 0, 0) reads offset 90 of a 90-entry buffer |
| `Sweep.Row` | include/lattice.hh:132-133 | the cells the inner loop visits for row i: (i, bj), ..., (i, ej) |
| `Sweep.RowMajor` | include/lattice.hh:131-133 | the cells the two nested loops visit: the rows bi..ei one after another |
| `Sweep.GridRegionAsWritten` | include/lattice.hh:135 | the rectangle the whole-grid form passes: rows 0..`ni_ - 1`, columns 0..`nj_ - 1`, with the subtractions wrapping (likewise line 154) |
| `Sweep.GridCells` | include/lattice.hh:135 | the intended whole-grid sweep: the row-major cells of 0..ni-1 x 0..nj-1, and no cell on an empty grid |
| `Sweep.RowShape` | include/lattice.hh:132-133 | the inner loop visits (i, bj), ..., (i, ej) in ascending order, ej - bj + 1 cells |
| `Sweep.RowMajorLength` | include/lattice.hh:129-134 | a region sweep makes (rows x columns) calls |
| `Sweep.RowMajorMembers` | include/lattice.hh:129-134 | a region sweep visits a cell iff it lies in the inclusive rectangle |
| `Sweep.RowMajorOrdered` | include/lattice.hh:129-134 | the visits are strictly increasing in row-major order: i in the outer loop, j in the inner loop, both ascending |
| `Sweep.RowMajorExactlyOnce` | include/lattice.hh:144-151 | every cell of the rectangle is visited, and no cell is visited twice |
| `Sweep.RowMajorExample` | include/lattice.hh:129-134 | a 2 x 2 region is visited as (0,0), (0,1), (1,0), (1,1) |
| `Sweep.GridRegionAsWrittenOnEmptyGrid` | include/lattice.hh:135 | with ni = 0 (resp. nj = 0) the whole-grid region's last row (resp. column) wraps to 4294967295, a bound an unsigned counter cannot pass, so the loop does not end; the region starts at cell (0, 0), which is outside the grid, and whose slot 0 lies outside the empty descriptor table |
| `Sweep.GridCellsCoverGrid` | include/lattice.hh:152-155 | the intended whole-grid sweep visits ni*nj cells, exactly the cells of the grid, in row-major order |
| `Sweep.GridRegionAgrees` | include/lattice.hh:135 | on a non-empty grid, the region as written gives exactly the intended whole-grid sweep |
| `LatticeGrid.Lattice.Empty` | include/lattice.hh:60 | the default lattice is 0 x 0 with empty buffers and an empty table |
| `LatticeGrid.Lattice.constructor` | include/lattice.hh:61-68 | fresh, distinct buffers of ni*nj*9 entries; a table of ni*nj null handles; ni and nj as given |
| `LatticeGrid.Lattice.InBounds` | include/lattice.hh:163-165 | true iff 0 <= i < ni and 0 <= j < nj, including for negative indices |
| `LatticeGrid.Lattice.CheckBounds` | include/lattice.hh:166-174 | fails with out-of-range naming (i, j) exactly when in_bounds of the converted indices is false, i.e. exactly when not (i < ni and j < nj); otherwise it passes; it changes no state |
| `LatticeGrid.Lattice.DescAt` | include/lattice.hh:104 | the handle in slot `nj_ * i + j`, `None` for a null pointer or a slot past the table |
| `LatticeGrid.Lattice.NodeDesc` | include/lattice.hh:102-105 | `node_desc(i, j)`: the descriptor the slot points to, defined only when the slot holds a non-null handle |
| `LatticeGrid.Lattice.FCur` | include/lattice.hh:190-192 | `f_(i, j, k)`: the current-buffer entry at the private offset of an in-bounds (i, j, k) |
| `LatticeGrid.Lattice.FNext` | include/lattice.hh:196-198 | `ft_(i, j, k)`: the next-buffer entry at the private offset of an in-bounds (i, j, k) |
| `LatticeGrid.Lattice.SetNodeDesc` | include/lattice.hh:106-115 | writes slot nj*i + j and nothing else; node_desc(i, j) then returns the new handle; every other in-bounds cell keeps its handle; buffers and trace are unchanged |
| `LatticeGrid.Lattice.F` | include/lattice.hh:92-94 | with ni = 9, f(i, j, k) is population k of cell (i, j) of the current buffer |
| `LatticeGrid.Lattice.FTemp` | include/lattice.hh:96-98 | with ni = 9, ftemp(i, j, k) is population k of cell (i, j) of the next buffer |
| `LatticeGrid.Lattice.SetFCur` | include/lattice.hh:187-192 | a write through f_(i, j, k) changes that population only; the next buffer is untouched |
| `LatticeGrid.Lattice.SetFNext` | include/lattice.hh:193-198 | a write through ft_(i, j, k) changes that population only; the current buffer is untouched |
| `LatticeGrid.Lattice.SwapFPtrs` | include/lattice.hh:160 | exchanges the buffer references themselves: current and next populations trade places unaltered, and the size invariant holds |
| `LatticeGrid.Lattice.SwapTwice` | include/lattice.hh:160 | two consecutive swaps restore the original buffers and populations |
| `LatticeGrid.Lattice.StreamCell` | include/lattice.hh:126-128 | one stream call for cell (i, j), which must be in bounds and have a descriptor |
| `LatticeGrid.Lattice.StreamRegion` | include/lattice.hh:129-134 | the calls made are exactly the row-major enumeration of the inclusive rectangle |
| `LatticeGrid.Lattice.StreamAll` | include/lattice.hh:135 | the calls made are the intended whole-grid sweep: each of the ni*nj cells once, in row-major order |
| `LatticeGrid.Lattice.CollideAndBoundCell` | include/lattice.hh:139-143 | one collide_and_bound call for cell (i, j), carrying mmap and cman |
| `LatticeGrid.Lattice.CollideAndBoundRegion` | include/lattice.hh:144-151 | the calls made are exactly the row-major enumeration of the inclusive rectangle, each carrying mmap and cman |
| `LatticeGrid.Lattice.CollideAndBoundAll` | include/lattice.hh:152-155 | the calls made are the intended whole-grid sweep, each carrying mmap and cman |

## Left out

- `init_f_(rho)` (include/lattice.hh:200): its body is not part of this model. The constructor says nothing about the initial populations.
- The list-of-regions overloads of `stream` and `collide_and_bound` (include/lattice.hh:136, 156-158): their bodies are not part of this model.
- Copy and move construction and assignment (include/lattice.hh:69-72): their bodies are not part of this model.
- The destructor (include/lattice.hh:73-79): it runs descriptor destructors and swallows their exceptions. This is C++ object lifetime, with no state to model.
- `SimpleMemPool` (helpers/mem_helpers.hh): it is not part of this model. An allocation is an opaque non-null `NodeDescRef` that the caller passes to `SetNodeDesc`. Arena capacity, exhaustion and the leak on reassignment are not modelled.
- The values of `lat_vecs_` and `w_` are defined outside the header. The direction vectors are taken from the class diagram, with x to the right and y upward. The weights `w(k)` (line 122) are not modelled.
- `cs()` and `cssq()` (include/lattice.hh:86-87): they are floating point (`sqrt(3.0)`).
- The raw accessors `pf()`, `pftemp()` and `node_descs()`, and `num_i()`, `num_j()`, `num_k()`: these are the fields `spf`, `spftemp`, `nodeDescs`, `ni`, `nj` and the constant `D2Q9.NumK` themselves.
- What a node descriptor does (node_desc.hh, the streaming and collision physics, include/equilibrium.hh): it is not part of this model. `StreamCell` and `CollideAndBoundCell` record the call in `trace` and may modify both population buffers, whose new contents the model leaves unconstrained; the region and whole-grid sweeps therefore promise nothing about the populations either, only the calls, the descriptor table and the size invariant.
- `LatticeGrid.Lattice.constructor`: requires ni*nj*9 to fit in 32 bits. Beyond that the source's size expressions wrap and allocate smaller buffers than the grid, which the model does not represent.
- `LatticeGrid.Lattice.CheckBounds`: the text of the error message is not modelled. The error carries only the coordinates.
- `LatticeGrid.Lattice.F`: where the source reads past the buffer (undefined behaviour), the model returns `None`. `FTemp` does the same.
- `LatticeGrid.Lattice.StreamCell`: requires the cell to be in bounds and to have a descriptor. The source does not check either; descriptors assume in-bounds indices, and dereferencing a null handle is undefined. The region and whole-grid methods, and their collide_and_bound counterparts, require the same of every cell they visit.
- `LatticeGrid.Lattice.StreamRegion`: also requires ei < 4294967295 or an empty row range. Otherwise the source's unsigned loop counter wraps and the loop never ends. `CollideAndBoundRegion` has the same precondition.
- `LatticeGrid.Lattice.StreamAll`: uses the intended whole-grid sweep (see Findings), so on an empty grid it makes no call. On a non-empty grid it coincides with the source (`Sweep.GridRegionAgrees`). `CollideAndBoundAll` behaves the same way.

## Findings

| source | as written | input that shows it | evidently intended | confidence | as-written member | corrected member |
|---|---|---|---|---|---|---|
| include/lattice.hh:92-98 | `f`/`ftemp` index with `ni_ * (i * nj_ + j) + k` | 10 x 1 grid, f(9, 0, 0): offset 90 in a 90-entry buffer; any grid with ni != 9 and at least two cells reads the wrong slot | `(i * nj_ + j) * num_k() + k`, as `f_`/`ft_` do | not executed; high | `Layout.PublicOffsetOutOfBuffer` | `Layout.PrivateOffsetInRange` |
| include/lattice.hh:116-118 | `pc(k)` returns `&lat_vecs_[2 * k]` on a `[9][2]` table. That expression has type `const double (*)[2]`, which does not convert implicitly to the `const double *` return type, so the line is ill-formed C++; a permissive build (such as GCC with `-fpermissive`) converts the pointer, and the behaviour modelled is the one it then has | c(1, 0) reads row 2 (value 0) instead of row 1 (value 1); for k >= 5 it reads past the table | row k, i.e. `lat_vecs_[k][comp]` | not executed; high | `D2Q9.CAsWrittenMismatch` | `D2Q9.C` |
| include/lattice.hh:135 | whole-grid `stream()` passes `ni_ - 1`, `nj_ - 1` as unsigned (likewise line 154) | ni = 0, nj = 1: the region is rows 0..4294967295, column 0. The outer loop `i <= 4294967295` never ends, because an unsigned counter cannot exceed that bound, and its first call already reads `node_descs_[0]` of an empty vector | no sweep at all on an empty grid | not executed; medium | `Sweep.GridRegionAsWrittenOnEmptyGrid` | `Sweep.GridCellsCoverGrid` |
