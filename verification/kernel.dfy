/** The demo kernel `result(flat_index) = iCell.i + iCell.j + iCell.k` and the
    `cell_sums` view it fills. */
module Kernel {
  import opened U32
  import opened Mesh
  import opened Arith
  import opened CellExecutor

  /** `CellArray_shape shape{128, 128, 128}`, the shape both demos run. */
  const DemoShape: Shape := Shape(128, 128, 128)

  /** The `int` value of a `uint32_t`, two's complement. */
  function ToInt32(x: u32): (r: int)
    ensures -0x8000_0000 <= r < 0x8000_0000
    ensures (x - r) % Modulus == 0
    ensures x < 0x8000_0000 ==> r == x
  {
    if x < 0x8000_0000 then x else x - Modulus
  }

  /** `iCell.i + iCell.j + iCell.k`, summed in 32-bit unsigned arithmetic and
      stored in an `int` element of the view. */
  function CellSum(c: CellIndex): (r: int)
    ensures -0x8000_0000 <= r < 0x8000_0000
    ensures (c.i + c.j + c.k - r) % Modulus == 0
  {
    var sum := Add(Add(c.i, c.j), c.k);
    CongruentTrans(c.i + c.j + c.k, sum, ToInt32(sum));
    ToInt32(sum)
  }

  /** For a cell of the mesh the stored sum is exact: it is at most the
      cell's local index, so it neither wraps nor turns negative. */
  lemma CellSumExact(s: Shape, c: CellIndex)
    requires Fits(s) && InGrid(s, c)
    ensures CellSum(c) == c.i + c.j + c.k
  {
    MixedRadixBelow(s.nx, s.ny, s.nz, 0, c.k, c.j, c.i, 1);
    MulLeMono(1, s.nx * s.ny, c.k);
    MulLeMono(1, s.nx, c.j);
    assert c.i + c.j + c.k <= c.k * (s.nx * s.ny) + c.j * s.nx + c.i;
  }

  /** Independent statement of what `cell_sums[n]` should hold: the sum of
      the three low mixed-radix digits of `n`. */
  function ExpectedSum(s: Shape, n: int): int
    requires Fits(s) && 0 <= n < TotalCells(s)
  {
    NonEmptyShape(s);
    n % s.nx + n / s.nx % s.ny + n / (s.nx * s.ny) % s.nz
  }

  /** `Kokkos::View<int*>` is zero-initialised. */
  function Zeros(n: nat): (r: seq<int>)
    ensures |r| == n
    ensures forall t :: 0 <= t < n ==> r[t] == 0
  {
    seq(n, _ => 0)
  }

  /** The view after the kernel ran for each call in `vs`, in order. */
  function ApplyKernel(result: seq<int>, vs: seq<Visit>): (r: seq<int>)
    requires forall t :: 0 <= t < |vs| ==> vs[t].flat < |result|
    ensures |r| == |result|
    decreases |vs|
  {
    if vs == [] then result
    else ApplyKernel(result[vs[0].flat := CellSum(vs[0].cell)], vs[1..])
  }

  /** Calls with consecutive flat indices `lo, lo + 1, ...` overwrite exactly
      those elements, each with its own cell's sum; the rest is unchanged. */
  lemma {:induction false} ApplyConsecutive(result: seq<int>, vs: seq<Visit>, lo: nat)
    requires lo + |vs| <= |result|
    requires forall t :: 0 <= t < |vs| ==> vs[t].flat == lo + t
    ensures forall n :: 0 <= n < |result| ==>
      ApplyKernel(result, vs)[n] == (if lo <= n < lo + |vs| then CellSum(vs[n - lo].cell) else result[n])
    decreases |vs|
  {
    if vs != [] {
      var next := result[lo := CellSum(vs[0].cell)];
      ApplyConsecutive(next, vs[1..], lo + 1);
    }
  }

  /** No two calls write the same element. */
  predicate DistinctFlats(vs: seq<Visit>) {
    forall t, u :: 0 <= t < u < |vs| ==> vs[t].flat != vs[u].flat
  }

  /** When no two calls write the same element, each written element holds
      its own call's sum and every other element keeps its value, whatever
      the order of the calls. */
  lemma {:induction false} ApplyDistinct(result: seq<int>, vs: seq<Visit>)
    requires forall t :: 0 <= t < |vs| ==> vs[t].flat < |result|
    requires DistinctFlats(vs)
    ensures forall t :: 0 <= t < |vs| ==> ApplyKernel(result, vs)[vs[t].flat] == CellSum(vs[t].cell)
    ensures forall n :: 0 <= n < |result| && (forall t :: 0 <= t < |vs| ==> vs[t].flat != n) ==>
      ApplyKernel(result, vs)[n] == result[n]
    decreases |vs|
  {
    if vs != [] {
      var next := result[vs[0].flat := CellSum(vs[0].cell)];
      var rest := vs[1..];
      ApplyDistinct(next, rest);
      assert forall t :: 0 <= t < |rest| ==> rest[t] == vs[t + 1];
      assert forall t :: 0 <= t < |rest| ==> rest[t].flat != vs[0].flat;
    }
  }

  /** The same calls in any order leave the same view, provided no two of
      them write the same element. */
  lemma ApplyOrderIndependent(result: seq<int>, vs: seq<Visit>, ws: seq<Visit>)
    requires forall t :: 0 <= t < |vs| ==> vs[t].flat < |result|
    requires forall u :: 0 <= u < |ws| ==> ws[u].flat < |result|
    requires DistinctFlats(vs) && DistinctFlats(ws)
    requires forall v :: v in vs <==> v in ws
    ensures ApplyKernel(result, vs) == ApplyKernel(result, ws)
  {
    assert forall u :: 0 <= u < |ws| ==> ws[u] in vs;
    ApplyDistinct(result, vs);
    ApplyDistinct(result, ws);
    forall n | 0 <= n < |result|
      ensures ApplyKernel(result, vs)[n] == ApplyKernel(result, ws)[n]
    {
      if t :| 0 <= t < |vs| && vs[t].flat == n {
        assert vs[t] in ws;
        var u :| 0 <= u < |ws| && ws[u] == vs[t];
      } else {
        forall u | 0 <= u < |ws|
          ensures ws[u].flat != n
        {
          assert ws[u] in vs;
        }
      }
    }
  }

  /** Running the range loop once fills every element of the view with its
      expected sum, whatever the view held before. */
  lemma RangeKernelResult(s: Shape, result: seq<int>)
    requires Fits(s) && |result| == TotalCells(s)
    ensures forall n :: 0 <= n < |result| ==> ApplyKernel(result, RangeVisits(s))[n] == ExpectedSum(s, n)
  {
    var vs := RangeVisits(s);
    RangeVisitsEachCellOnce(s);
    ApplyConsecutive(result, vs, 0);
    forall n | 0 <= n < |result|
      ensures ApplyKernel(result, vs)[n] == ExpectedSum(s, n)
    {
      assert ApplyKernel(result, vs)[n] == CellSum(vs[n].cell);
      RangeVisitSum(s, n);
    }
  }

  /** Whatever order a parallel loop runs the range calls in, the view ends
      the same: every element holds its expected sum. */
  lemma AnyOrderKernelResult(s: Shape, result: seq<int>, ws: seq<Visit>)
    requires Fits(s) && |result| == TotalCells(s)
    requires forall u :: 0 <= u < |ws| ==> ws[u].flat < |result|
    requires DistinctFlats(ws)
    requires forall v :: v in ws <==> v in RangeVisits(s)
    ensures forall n :: 0 <= n < |result| ==> ApplyKernel(result, ws)[n] == ExpectedSum(s, n)
  {
    var vs := RangeVisits(s);
    ApplyOrderIndependent(result, vs, ws);
    RangeKernelResult(s, result);
  }

  /** The range body's cell for flat index `n` has the expected sum. */
  lemma RangeVisitSum(s: Shape, n: u32)
    requires Fits(s) && n < TotalCells(s)
    ensures CellSum(RangeVisit(s, n).cell) == ExpectedSum(s, n)
  {
    RangeVisitDigits(s, n);
    CellSumExact(s, RangeVisit(s, n).cell);
  }

  /** The cells of the first row (flat index below bx) hold their own index:
      there the octant, j and k are 0 and i is the index. */
  lemma FirstRowSums(s: Shape, n: int)
    requires Fits(s) && 0 <= n < TotalCells(s) && n < s.nx
    ensures ExpectedSum(s, n) == n
  {
    NonEmptyShape(s);
    MulLeMono(1, s.ny, s.nx);
    DivModUnique(n, s.nx, 0, n);
    DivModUnique(n, s.nx * s.ny, 0, n);
  }
}
