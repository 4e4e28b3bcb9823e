/** The index arithmetic of `CellExecutor::foreach_cell`: how a loop index is
    split into an octant and a position (i, j, k) inside the block, and which
    flat index is handed to the user functor together with the cell. */
module CellExecutor {
  import opened U32
  import opened Mesh
  import opened Arith

  /** One call `f(iCell, flat)` of the user functor. */
  datatype Visit = Visit(cell: CellIndex, flat: u32)

  /** A non-empty block has non-empty sides, and both digits of an index
      inside it are in range. */
  lemma SplitBounds(index: int, x: int, y: int, z: int)
    requires 0 <= x && 0 <= y && 0 <= z && 0 <= index < x * y * z
    ensures 0 < x && 0 < y && 0 < z
    ensures index / (x * y) < z
    ensures index % (x * y) / x < y
  {
    assert x * y * z != 0;
    assert 0 < x * y;
    MulLtCancel(index / (x * y), z, x * y);
    MulLtCancel(index % (x * y) / x, y, x);
  }

  /** The exact (unbounded) arithmetic of the (i, j, k) split: every
      intermediate value is non-negative and bounded by the index. */
  lemma SplitExact(index: int, x: int, y: int, xy: int, k: int, rem: int, j: int)
    requires 0 < x && 0 < y && xy == x * y && 0 <= index
    requires k == index / xy && rem == index % xy && j == rem / x
    ensures 0 <= k * x <= k * xy <= index
    ensures k * x * y == k * xy
    ensures rem == index - k * xy
    ensures 0 <= j * x <= rem
    ensures index - j * x - k * xy == rem % x
  {
    assert index == k * xy + rem;
    assert rem == j * x + rem % x;
    assert 0 <= k;
    assert 0 <= j;
    MulLeMono(x, xy, k);
    assert k * x * y == k * (x * y);
  }

  /** For an index inside the block, every 32-bit operation of the (i, j, k)
      split yields the exact value: nothing wraps and no subtraction goes
      below zero. */
  lemma LocalSplitExact(s: Shape, index: u32, xy: int, k: int, rem: int, j: int)
    requires Fits(s) && index < CellsPerBlock(s)
    requires xy == s.nx * s.ny && k == index / xy && rem == index % xy && j == rem / s.nx
    ensures 0 < s.nx && 0 < s.ny && 0 < s.nz
    ensures Mul(s.nx, s.ny) == xy
    ensures 0 <= k < s.nz && 0 <= j < s.ny
    ensures Mul(Mul(k, s.nx), s.ny) == k * xy
    ensures Sub(index, k * xy) == rem
    ensures Mul(j, s.nx) == j * s.nx
    ensures Sub(Sub(index, j * s.nx), k * xy) == rem % s.nx
    ensures 0 <= rem % s.nx < s.nx
    ensures k * xy + j * s.nx + rem % s.nx == index
  {
    SizesAreExact(s);
    SplitBounds(index, s.nx, s.ny, s.nz);
    SplitExact(index, s.nx, s.ny, xy, k, rem, j);
    MulLeMono(1, s.nz, xy);
    assert xy < Modulus;
    assert Mul(k, s.nx) == k * s.nx;
    assert Mul(k * s.nx, s.ny) == k * xy;
    assert Mul(j, s.nx) == j * s.nx;
  }

  /** The (i, j, k) split shared by every loop body of `foreach_cell`: k is
      the quotient of the local index by the area of one layer (bx times by),
      j the quotient by bx of what the k layers leave, and i what is left
      after taking away j rows and k layers, all in 32-bit arithmetic. The
      cell is not a dummy and carries the block shape. */
  function LocalCell(s: Shape, oct: u32, index: u32): (c: CellIndex)
    requires Fits(s) && index < CellsPerBlock(s)
    ensures c.octant == OctantRef(oct, false)
    ensures c.nx == s.nx && c.ny == s.ny && c.nz == s.nz
    ensures c.i < s.nx && c.j < s.ny && c.k < s.nz
    ensures c.k * (s.nx * s.ny) + c.j * s.nx + c.i == index
  {
    LocalSplitExact(s, index, s.nx * s.ny, index / (s.nx * s.ny),
      index % (s.nx * s.ny), index % (s.nx * s.ny) / s.nx);
    var k := index / Mul(s.nx, s.ny);
    var kxy := Mul(Mul(k, s.nx), s.ny);
    var j := Sub(index, kxy) / s.nx;
    var i := Sub(Sub(index, Mul(j, s.nx)), kxy);
    CellIndex(OctantRef(oct, false), i, j, k, s.nx, s.ny, s.nz)
  }

  /** The octant split of a flat index is exact: the octant is below
      NumOctants, the local index is inside the block, and octant and local
      index rebuild the flat index. */
  lemma OctantSplitExact(s: Shape, index: int, iOct: int, local: int)
    requires Fits(s) && 0 <= index < TotalCells(s)
    requires 0 < CellsPerBlock(s) && iOct == index / CellsPerBlock(s) && local == index % CellsPerBlock(s)
    ensures 0 <= iOct < NumOctants && 0 <= local < CellsPerBlock(s)
    ensures iOct * (s.nx * s.ny * s.nz) + local == index
    ensures iOct * CellsPerBlock(s) + local == index
  {
    SizesAreExact(s);
    MulLtCancel(iOct, NumOctants, CellsPerBlock(s));
  }

  /** The body of the `RangePolicy` loop over `[0, total_cells)`: the octant
      is the quotient of the loop index by the block size, the remainder is
      split into (i, j, k), and `f` receives the loop index itself. The cell
      is a cell of the mesh and its position in the flat numbering is the
      loop index. */
  function RangeVisit(s: Shape, index: u32): (v: Visit)
    requires Fits(s) && index < TotalCells(s)
    ensures InGrid(s, v.cell)
    ensures v.flat == index
    ensures FlatIndex(s, v.cell) == index
  {
    var cpb := CellsPerBlock(s);
    assert 0 < cpb;
    var iOct := index / cpb;
    var local := index % cpb;
    OctantSplitExact(s, index, iOct, local);
    var c := LocalCell(s, iOct, local);
    Visit(c, index)
  }

  /** The body of the `MDRangePolicy` loop over pairs (octant, local index)
      in `[0, num_octants) x [0, cells_per_block)`: the local index is split
      into (i, j, k) and `f` receives octant times block size plus local
      index. It is the call the range body makes for that flat index. */
  function MDRangeVisit(s: Shape, oct: u32, index: u32): (v: Visit)
    requires Fits(s) && oct < NumOctants && index < CellsPerBlock(s)
    ensures v.flat == oct * CellsPerBlock(s) + index < TotalCells(s)
    ensures v == RangeVisit(s, v.flat)
  {
    var flat := Add(Mul(oct, CellsPerBlock(s)), index);
    BlockOffsetExact(s, oct, index);
    Visit(LocalCell(s, oct, index), flat)
  }

  /** The body of the `TeamThreadRange` loop of the `TeamPolicy` variant: the
      league rank is the octant, the thread index is split into (i, j, k),
      and `f` receives `iOct * cells_per_block + index`. It is the call the
      range body makes for that flat index. */
  function TeamVisit(s: Shape, leagueRank: u32, index: u32): (v: Visit)
    requires Fits(s) && leagueRank < NumOctants && index < CellsPerBlock(s)
    ensures v.flat == leagueRank * CellsPerBlock(s) + index < TotalCells(s)
    ensures v == RangeVisit(s, v.flat)
  {
    var iOct := leagueRank;
    BlockOffsetExact(s, iOct, index);
    var c := LocalCell(s, iOct, index);
    Visit(c, Add(Mul(iOct, CellsPerBlock(s)), index))
  }

  /** Outside `Fits` the variants part ways. For a 1024^3 block the range
      loop makes no call, while the MD-range and team bodies for octant 4
      pass the same wrapped flat index 0 as octant 0. */
  lemma WrappedFlatIndexCollides()
    ensures TotalCells(Shape(1024, 1024, 1024)) == 0
    ensures Add(Mul(4, CellsPerBlock(Shape(1024, 1024, 1024))), 0) == 0
    ensures Add(Mul(0, CellsPerBlock(Shape(1024, 1024, 1024))), 0) == 0
  {
    WrappingShapes();
  }

  /** `oct * cells_per_block + index` does not wrap, and dividing it by
      `cells_per_block` gives back `oct` and `index`. */
  lemma BlockOffsetExact(s: Shape, oct: u32, index: u32)
    requires Fits(s) && oct < NumOctants && index < CellsPerBlock(s)
    ensures oct * CellsPerBlock(s) + index < TotalCells(s)
    ensures Add(Mul(oct, CellsPerBlock(s)), index) == oct * CellsPerBlock(s) + index
    ensures (oct * CellsPerBlock(s) + index) / CellsPerBlock(s) == oct
    ensures (oct * CellsPerBlock(s) + index) % CellsPerBlock(s) == index
  {
    SizesAreExact(s);
    DigitBelow(oct, index, CellsPerBlock(s), NumOctants);
    DivModUnique(oct * CellsPerBlock(s) + index, CellsPerBlock(s), oct, index);
  }

  /** Two cells of the mesh with the same flat index are the same cell. */
  lemma FlatIndexInjective(s: Shape, c: CellIndex, d: CellIndex)
    requires InGrid(s, c) && InGrid(s, d)
    requires FlatIndex(s, c) == FlatIndex(s, d)
    ensures c == d
  {
    assert FlatIndex(s, c) == MixedRadix(s.nx, s.ny, s.nz, c.octant.octant, c.k, c.j, c.i);
    assert FlatIndex(s, d) == MixedRadix(s.nx, s.ny, s.nz, d.octant.octant, d.k, d.j, d.i);
    MixedRadixUnique(s.nx, s.ny, s.nz, c.octant.octant, c.k, c.j, c.i, d.octant.octant, d.k, d.j, d.i);
  }

  /** Every cell of the mesh is reached by the range body, at its own flat
      index. */
  lemma RangeVisitOnto(s: Shape, c: CellIndex)
    requires Fits(s) && InGrid(s, c)
    ensures 0 <= FlatIndex(s, c) < TotalCells(s)
    ensures RangeVisit(s, FlatIndex(s, c)).cell == c
  {
    SizesAreExact(s);
    MixedRadixBelow(s.nx, s.ny, s.nz, c.octant.octant, c.k, c.j, c.i, NumOctants);
    assert FlatIndex(s, c) == MixedRadix(s.nx, s.ny, s.nz, c.octant.octant, c.k, c.j, c.i);
    FlatIndexInjective(s, c, RangeVisit(s, FlatIndex(s, c)).cell);
  }

  /** A closed form of the decomposition: i, j and k are the digits of the
      flat index in the mixed radix (bx, by, bz), and the octant is the
      quotient by the block size. */
  lemma RangeVisitDigits(s: Shape, n: u32)
    requires Fits(s) && n < TotalCells(s)
    ensures 0 < s.nx && 0 < s.ny && 0 < s.nz
    ensures RangeVisit(s, n).cell.i == n % s.nx
    ensures RangeVisit(s, n).cell.j == n / s.nx % s.ny
    ensures RangeVisit(s, n).cell.k == n / (s.nx * s.ny) % s.nz
    ensures RangeVisit(s, n).cell.octant.octant == n / (s.nx * s.ny * s.nz)
  {
    var c := RangeVisit(s, n).cell;
    assert n == MixedRadix(s.nx, s.ny, s.nz, c.octant.octant, c.k, c.j, c.i);
    MixedRadixDigits(s.nx, s.ny, s.nz, c.octant.octant, c.k, c.j, c.i);
  }

  /** The calls the `RangePolicy` variant makes, in loop order. */
  function RangeVisits(s: Shape): (vs: seq<Visit>)
    requires Fits(s)
    ensures |vs| == TotalCells(s)
    ensures forall n :: 0 <= n < |vs| ==> vs[n].flat == n
  {
    seq(TotalCells(s), n requires 0 <= n < TotalCells(s) => RangeVisit(s, n))
  }

  /** `vs` calls `f` exactly once for every cell of the mesh, each time with
      the cell's own flat index, and for nothing else. */
  ghost predicate VisitsEachCellOnce(s: Shape, vs: seq<Visit>) {
    && (forall t :: 0 <= t < |vs| ==> InGrid(s, vs[t].cell) && vs[t].flat == FlatIndex(s, vs[t].cell))
    && (forall t, u :: 0 <= t < u < |vs| ==> vs[t].cell != vs[u].cell)
    && (forall c :: InGrid(s, c) ==> exists t :: 0 <= t < |vs| && vs[t].cell == c)
  }

  /** The range loop over `[0, total_cells)` calls `f` once per cell, and the
      n-th call receives flat index n. */
  lemma RangeVisitsEachCellOnce(s: Shape)
    requires Fits(s)
    ensures VisitsEachCellOnce(s, RangeVisits(s))
    ensures forall n :: 0 <= n < |RangeVisits(s)| ==> RangeVisits(s)[n].flat == n
  {
    var vs := RangeVisits(s);
    forall c | InGrid(s, c)
      ensures exists t :: 0 <= t < |vs| && vs[t].cell == c
    {
      RangeVisitOnto(s, c);
      var t := FlatIndex(s, c);
      assert vs[t].cell == c;
    }
  }
}
