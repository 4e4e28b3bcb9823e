/** The chunk-size `foreach_cell`: one `RangePolicy` over all cells, whose
    chunk size is asked of the tuner among a fixed candidate set. The
    parallel loop is modelled as the sequential enumeration of its calls,
    chunk after chunk. */
module ChunkDemo {
  import opened U32
  import opened Mesh
  import opened CellExecutor
  import opened Kernel
  import opened Seqs

  /** `chunk_options`, the candidate set declared to the tuner. */
  const ChunkOptions: seq<int> := [8, 16, 32, 64, 128, 256, 512, 1024]

  /** `default_chunk_size`, the value proposed to the tuner. */
  const DefaultChunkSize: int := 128

  /** `num_iterations`, how often the demo's main loop runs `foreach_cell`. */
  const NumIterations: nat := 1000

  function Pow2(e: nat): nat {
    if e == 0 then 1 else 2 * Pow2(e - 1)
  }

  /** The candidate set holds eight strictly increasing powers of two, from
      2^3 = 8 to 2^10 = 1024. */
  lemma ChunkOptionsArePowersOfTwo()
    ensures |ChunkOptions| == 8
    ensures forall t :: 0 <= t < |ChunkOptions| ==> ChunkOptions[t] == Pow2(t + 3)
    ensures forall t, u :: 0 <= t < u < |ChunkOptions| ==> ChunkOptions[t] < ChunkOptions[u]
  {
    assert Pow2(3) == 8 && Pow2(4) == 16 && Pow2(5) == 32 && Pow2(6) == 64;
    assert Pow2(7) == 128 && Pow2(8) == 256 && Pow2(9) == 512 && Pow2(10) == 1024;
  }

  /** The default proposed to the tuner is one of the candidates. */
  lemma DefaultChunkSizeIsCandidate()
    ensures DefaultChunkSize in ChunkOptions
  {
  }

  /** `static_cast<uint32_t>` of the tuner's 64-bit answer. */
  function ChunkSizeOf(tunerValue: int): (r: u32)
    ensures (tunerValue - r) % Modulus == 0
    ensures 0 <= tunerValue < Modulus ==> r == tunerValue
  {
    Wrap(tunerValue)
  }

  /** Every candidate survives the cast unchanged and is a usable, positive
      chunk size. */
  lemma CandidatesSurviveCast()
    ensures forall v :: v in ChunkOptions ==> 0 < ChunkSizeOf(v) == v
  {
  }

  /** The loop body of the chunked `RangePolicy`: the octant is
      `index / nbCellsPerBlock`, the loop variable is then overwritten with
      `index % nbCellsPerBlock` (here `local`) and split into (i, j, k), and
      `f` receives `iOct * nbCellsPerBlock + local`, rebuilt from the octant
      and the overwritten index. The rebuilt value is the original loop
      index, so the call is the one the range body makes. */
  function ChunkVisit(s: Shape, index: u32): (v: Visit)
    requires Fits(s) && index < TotalCells(s)
    ensures v.flat == index
    ensures v == RangeVisit(s, index)
  {
    var cpb := CellsPerBlock(s);
    assert 0 < cpb;
    var iOct := index / cpb;
    var local := index % cpb;
    OctantSplitExact(s, index, iOct, local);
    BlockOffsetExact(s, iOct, local);
    Visit(LocalCell(s, iOct, local), Add(Mul(iOct, cpb), local))
  }

  /** The calls of one chunk: the `len` indices from `lo` on. */
  function OneChunk(s: Shape, lo: nat, len: nat): seq<Visit>
    requires Fits(s) && lo + len <= TotalCells(s)
  {
    seq(len, t requires 0 <= t < len => ChunkVisit(s, lo + t))
  }

  /** The calls for the indices `[lo, total_cells)`, handed out in
      consecutive chunks of `chunk` indices (the last one possibly shorter). */
  function ChunkedVisits(s: Shape, lo: nat, chunk: nat): (vs: seq<Visit>)
    requires Fits(s) && 0 < chunk && lo <= TotalCells(s)
    ensures |vs| == TotalCells(s) - lo
    decreases TotalCells(s) - lo
  {
    if lo == TotalCells(s) then []
    else
      var len := if chunk < TotalCells(s) - lo then chunk else TotalCells(s) - lo;
      OneChunk(s, lo, len) + ChunkedVisits(s, lo + len, chunk)
  }

  /** One chunk makes the calls of the range loop over its indices. */
  lemma OneChunkMatchesRange(s: Shape, lo: nat, len: nat)
    requires Fits(s) && lo + len <= TotalCells(s)
    ensures OneChunk(s, lo, len) == RangeVisits(s)[lo..lo + len]
  {
    var head := OneChunk(s, lo, len);
    forall t | 0 <= t < len
      ensures head[t] == RangeVisits(s)[lo + t]
    {
      assert head[t] == ChunkVisit(s, lo + t);
    }
  }

  /** Cutting the range into chunks neither loses, repeats nor reorders a
      call: the chunks together are the range loop from `lo` on. */
  lemma {:induction false} ChunkedVisitsMatchRange(s: Shape, lo: nat, chunk: nat)
    requires Fits(s) && 0 < chunk && lo <= TotalCells(s)
    ensures ChunkedVisits(s, lo, chunk) == RangeVisits(s)[lo..]
    decreases TotalCells(s) - lo
  {
    var total := TotalCells(s);
    if lo < total {
      var len := if chunk < total - lo then chunk else total - lo;
      var all := RangeVisits(s);
      var head, tail := OneChunk(s, lo, len), ChunkedVisits(s, lo + len, chunk);
      assert ChunkedVisits(s, lo, chunk) == head + tail;
      ChunkedVisitsMatchRange(s, lo + len, chunk);
      OneChunkMatchesRange(s, lo, len);
      ConcatSuffix(ChunkedVisits(s, lo, chunk), head, tail, all, lo, lo + len);
    } else {
      assert |RangeVisits(s)| == lo;
    }
  }

  /** One run of `foreach_cell` with chunk size `chunk`: whatever the chunk
      size, `f` is called once per cell with the cell's flat index, in the
      order of the range loop. */
  function ChunkPolicyVisits(s: Shape, chunk: nat): (vs: seq<Visit>)
    requires Fits(s) && 0 < chunk
    ensures vs == RangeVisits(s)
    ensures VisitsEachCellOnce(s, vs)
  {
    ChunkedVisitsMatchRange(s, 0, chunk);
    RangeVisitsEachCellOnce(s);
    assert RangeVisits(s)[0..] == RangeVisits(s);
    ChunkedVisits(s, 0, chunk)
  }

  /** The `cell_sums` view after the main loop has run `foreach_cell` once per
      entry of `tunerValues`, each run with the chunk size the tuner answered.
      After at least one run every element holds its expected sum, whichever
      candidates the tuner picked. */
  function DemoLoopResult(s: Shape, tunerValues: seq<int>): (r: seq<int>)
    requires Fits(s)
    requires forall t :: 0 <= t < |tunerValues| ==> tunerValues[t] in ChunkOptions
    ensures |r| == TotalCells(s)
    ensures |tunerValues| == 0 ==> r == Zeros(TotalCells(s))
    ensures |tunerValues| > 0 ==> forall n :: 0 <= n < |r| ==> r[n] == ExpectedSum(s, n)
    decreases |tunerValues|
  {
    if tunerValues == [] then Zeros(TotalCells(s))
    else
      var before := DemoLoopResult(s, tunerValues[..|tunerValues| - 1]);
      CandidatesSurviveCast();
      RangeKernelResult(s, before);
      RangeVisitsEachCellOnce(s);
      ApplyKernel(before, ChunkPolicyVisits(s, ChunkSizeOf(tunerValues[|tunerValues| - 1])))
  }

  /** After the 1000 iterations, the ten elements the demo prints hold
      0, 1, ..., 9. */
  lemma DemoFirstCells(tunerValues: seq<int>)
    requires |tunerValues| == NumIterations
    requires forall t :: 0 <= t < |tunerValues| ==> tunerValues[t] in ChunkOptions
    ensures Fits(DemoShape)
    ensures forall n :: 0 <= n < 10 ==> DemoLoopResult(DemoShape, tunerValues)[n] == n
  {
    assert Fits(DemoShape);
    forall n | 0 <= n < 10
      ensures DemoLoopResult(DemoShape, tunerValues)[n] == n
    {
      FirstRowSums(DemoShape, n);
    }
  }
}
