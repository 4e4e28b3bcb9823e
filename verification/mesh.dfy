/** The value types shared by both `foreach_cell` demos: the block shape, the
    cell coordinate handed to the user functor, and the simulated mesh with its
    fixed number of octants. */
module Mesh {
  import opened U32
  import opened Arith

  /** `CellArray_shape`: the extent of one block of cells along x, y and z
      (`bx`, `by`, `bz` in the source; `by` is a Dafny keyword). */
  datatype Shape = Shape(nx: u32, ny: u32, nz: u32)

  /** The nested `octant` member of `CellIndex`: the octant number and whether
      the cell is a dummy. */
  datatype OctantRef = OctantRef(octant: u32, dummy: bool)

  /** `CellIndex`: a cell's octant, its position (i, j, k) inside the block,
      and a copy of the block shape. */
  datatype CellIndex = CellIndex(octant: OctantRef, i: u32, j: u32, k: u32, nx: u32, ny: u32, nz: u32)

  /** `MeshWrapper::getNumOctants`: the simulated mesh always has 20 octants. */
  const NumOctants: u32 := 20

  /** `bx * by * bz` evaluated left to right in 32-bit arithmetic: the true
      block size modulo 2^32, and the true block size whenever it is
      representable. */
  function CellsPerBlock(s: Shape): (r: u32)
    ensures (s.nx * s.ny * s.nz - r) % Modulus == 0
    ensures s.nx * s.ny * s.nz < Modulus ==> r == s.nx * s.ny * s.nz
  {
    var xy := Mul(s.nx, s.ny);
    MulCongruent(s.nx * s.ny, xy, s.nz);
    CongruentTrans(s.nx * s.ny * s.nz, xy * s.nz, Mul(xy, s.nz));
    assert s.nz != 0 ==> s.nx * s.ny <= s.nx * s.ny * s.nz by {
      if s.nz != 0 { MulLeMono(1, s.nz, s.nx * s.ny); }
    }
    Mul(xy, s.nz)
  }

  /** `cells_per_block * num_octants`, the extent of the flat range: the true
      cell count modulo 2^32, and the true count whenever it is
      representable. */
  function TotalCells(s: Shape): (r: u32)
    ensures (s.nx * s.ny * s.nz * NumOctants - r) % Modulus == 0
    ensures s.nx * s.ny * s.nz * NumOctants < Modulus ==> r == s.nx * s.ny * s.nz * NumOctants
  {
    var cpb := CellsPerBlock(s);
    var xyz := s.nx * s.ny * s.nz;
    MulCongruent(xyz, cpb, NumOctants);
    CongruentTrans(xyz * NumOctants, cpb * NumOctants, Mul(cpb, NumOctants));
    Mul(cpb, NumOctants)
  }

  /** The shapes whose cell count over all octants is representable in 32 bits. */
  predicate Fits(s: Shape) {
    s.nx * s.ny * s.nz * NumOctants < Modulus
  }

  /** For a shape that fits, the 32-bit products are the true cell counts. */
  lemma SizesAreExact(s: Shape)
    requires Fits(s)
    ensures CellsPerBlock(s) == s.nx * s.ny * s.nz
    ensures TotalCells(s) == s.nx * s.ny * s.nz * NumOctants
  {
    var xy := s.nx * s.ny;
    assert xy * s.nz * NumOctants < Modulus;
    if s.nz > 0 {
      assert xy <= xy * s.nz;
      assert Mul(s.nx, s.ny) == xy;
    }
  }

  /** For a shape that fits, the flat range is NumOctants whole blocks. */
  lemma TotalCellsIsBlocks(s: Shape)
    requires Fits(s)
    ensures TotalCells(s) == NumOctants * CellsPerBlock(s)
  {
    SizesAreExact(s);
  }

  /** A shape that fits and has cells has no empty side. */
  lemma NonEmptyShape(s: Shape)
    requires Fits(s) && 0 < TotalCells(s)
    ensures 0 < s.nx && 0 < s.ny && 0 < s.nz
  {
    SizesAreExact(s);
    ProductPositive(s.nx, s.ny, s.nz);
  }

  /** Two shapes whose cell count does not fit. For 1024^3 the block size
      2^30 is still exact but the flat range wraps to nothing, while the
      octant-by-block loops still run over 20 blocks of 2^30 cells. For
      512 x 512 x 1024 the flat range wraps to 2^30 cells, which is four
      blocks of 2^28 instead of twenty. */
  lemma WrappingShapes()
    ensures !Fits(Shape(1024, 1024, 1024))
    ensures CellsPerBlock(Shape(1024, 1024, 1024)) == 0x4000_0000
    ensures TotalCells(Shape(1024, 1024, 1024)) == 0
    ensures !Fits(Shape(512, 512, 1024))
    ensures CellsPerBlock(Shape(512, 512, 1024)) == 0x1000_0000
    ensures TotalCells(Shape(512, 512, 1024)) == 4 * CellsPerBlock(Shape(512, 512, 1024))
  {
    assert Mul(1024, 1024) == 0x10_0000;
    assert Mul(512, 512) == 0x4_0000;
  }

  /** The cells of the mesh: a real (non-dummy) cell of one of the octants,
      inside the block, carrying the block shape. */
  predicate InGrid(s: Shape, c: CellIndex) {
    && c.octant.octant < NumOctants
    && !c.octant.dummy
    && c.i < s.nx && c.j < s.ny && c.k < s.nz
    && c.nx == s.nx && c.ny == s.ny && c.nz == s.nz
  }

  /** The position of a cell in the flat numbering: octant-major, then k,
      then j, with i varying fastest. */
  function FlatIndex(s: Shape, c: CellIndex): int {
    c.octant.octant * (s.nx * s.ny * s.nz) + c.k * (s.nx * s.ny) + c.j * s.nx + c.i
  }
}
