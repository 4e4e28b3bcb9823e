/** The three-variant `foreach_cell`: a flat `RangePolicy`, a two-dimensional
    `MDRangePolicy` over (octant, local index), and a `TeamPolicy` with one
    team per octant. Parallel loops are modelled as sequential enumerations
    of the functor calls they make, outer index first. */
module PolicyDemo {
  import opened U32
  import opened Mesh
  import opened CellExecutor
  import opened Seqs
  import opened Kernel

  /** The three execution-policy variants `fastest_of` chooses between. */
  datatype Variant = RangeVariant | MDRangeVariant | TeamVariant

  /** One row per octant of the `MDRangePolicy` iteration space. */
  function MDRangeRows(s: Shape): seq<seq<Visit>>
    requires Fits(s)
  {
    seq(NumOctants, oct requires 0 <= oct < NumOctants =>
      seq(CellsPerBlock(s), index requires 0 <= index < CellsPerBlock(s) => MDRangeVisit(s, oct, index)))
  }

  /** The calls the `MDRangePolicy` variant makes. */
  function MDRangeVisits(s: Shape): (vs: seq<Visit>)
    requires Fits(s)
    ensures |vs| == TotalCells(s)
  {
    var rows := MDRangeRows(s);
    TotalCellsIsBlocks(s);
    assert forall t :: 0 <= t < |rows| ==> |rows[t]| == CellsPerBlock(s);
    FlattenLength(rows, CellsPerBlock(s));
    Flatten(rows)
  }

  /** The calls team `leagueRank` makes over its `TeamThreadRange`. */
  function TeamThreadRange(s: Shape, leagueRank: u32): seq<Visit>
    requires Fits(s) && leagueRank < NumOctants
  {
    seq(CellsPerBlock(s), index requires 0 <= index < CellsPerBlock(s) => TeamVisit(s, leagueRank, index))
  }

  /** One row per league member (octant) of the `TeamPolicy` variant. */
  function TeamRows(s: Shape): seq<seq<Visit>>
    requires Fits(s)
  {
    seq(NumOctants, rank requires 0 <= rank < NumOctants => TeamThreadRange(s, rank))
  }

  /** The calls the `TeamPolicy` variant makes. */
  function TeamVisits(s: Shape): (vs: seq<Visit>)
    requires Fits(s)
    ensures |vs| == TotalCells(s)
  {
    var rows := TeamRows(s);
    TotalCellsIsBlocks(s);
    assert forall t :: 0 <= t < |rows| ==> |rows[t]| == CellsPerBlock(s);
    FlattenLength(rows, CellsPerBlock(s));
    Flatten(rows)
  }

  /** Call `n` of the `MDRangePolicy` variant is call `n` of the range
      variant. */
  lemma MDRangeAt(s: Shape, n: int)
    requires Fits(s) && 0 <= n < TotalCells(s)
    ensures |MDRangeVisits(s)| == TotalCells(s)
    ensures MDRangeVisits(s)[n] == RangeVisit(s, n)
  {
    var cpb := CellsPerBlock(s);
    var rows := MDRangeRows(s);
    TotalCellsIsBlocks(s);
    assert forall t :: 0 <= t < |rows| ==> |rows[t]| == cpb;
    assert |rows| == NumOctants;
    FlattenAtIndex(rows, cpb, n);
    var oct: u32, index: u32 := n / cpb, n % cpb;
    var v := MDRangeVisit(s, oct, index);
    assert rows[oct][index] == v;
    assert v.flat == n;
  }

  /** The `MDRangePolicy` variant makes exactly the calls of the range variant,
      in the same order. */
  lemma MDRangeMatchesRange(s: Shape)
    requires Fits(s)
    ensures MDRangeVisits(s) == RangeVisits(s)
  {
    FlattenLength(MDRangeRows(s), CellsPerBlock(s));
    TotalCellsIsBlocks(s);
    forall n | 0 <= n < TotalCells(s)
      ensures MDRangeVisits(s)[n] == RangeVisits(s)[n]
    {
      MDRangeAt(s, n);
    }
  }

  /** Call `n` of the `TeamPolicy` variant is call `n` of the range variant. */
  lemma TeamAt(s: Shape, n: int)
    requires Fits(s) && 0 <= n < TotalCells(s)
    ensures |TeamVisits(s)| == TotalCells(s)
    ensures TeamVisits(s)[n] == RangeVisit(s, n)
  {
    var cpb := CellsPerBlock(s);
    var rows := TeamRows(s);
    TotalCellsIsBlocks(s);
    assert forall t :: 0 <= t < |rows| ==> |rows[t]| == cpb;
    assert |rows| == NumOctants;
    FlattenAtIndex(rows, cpb, n);
    var rank: u32, index: u32 := n / cpb, n % cpb;
    var v := TeamVisit(s, rank, index);
    assert rows[rank][index] == v;
    assert v.flat == n;
  }

  /** The `TeamPolicy` variant makes exactly the calls of the range variant,
      in the same order. */
  lemma TeamMatchesRange(s: Shape)
    requires Fits(s)
    ensures TeamVisits(s) == RangeVisits(s)
  {
    TotalCellsIsBlocks(s);
    FlattenLength(TeamRows(s), CellsPerBlock(s));
    forall n | 0 <= n < TotalCells(s)
      ensures TeamVisits(s)[n] == RangeVisits(s)[n]
    {
      TeamAt(s, n);
    }
  }

  /** One run of the variant `v`: whichever variant the tuner picks, `f` is
      called once per cell with the cell's flat index. */
  function ForeachCellVariant(s: Shape, v: Variant): (vs: seq<Visit>)
    requires Fits(s)
    ensures vs == RangeVisits(s)
    ensures VisitsEachCellOnce(s, vs)
  {
    RangeVisitsEachCellOnce(s);
    match v
    case RangeVariant => RangeVisits(s)
    case MDRangeVariant => MDRangeMatchesRange(s); MDRangeVisits(s)
    case TeamVariant => TeamMatchesRange(s); TeamVisits(s)
  }

  /** The `cell_sums` view after `foreach_cell`'s search loop has run once per
      entry of `choices`, each iteration running the variant `fastest_of`
      picked. After at least one iteration every element holds its expected
      sum, whichever variants were picked. */
  function SearchLoopResult(s: Shape, choices: seq<Variant>): (r: seq<int>)
    requires Fits(s)
    ensures |r| == TotalCells(s)
    ensures |choices| == 0 ==> r == Zeros(TotalCells(s))
    ensures |choices| > 0 ==> forall n :: 0 <= n < |r| ==> r[n] == ExpectedSum(s, n)
    decreases |choices|
  {
    if choices == [] then Zeros(TotalCells(s))
    else
      var before := SearchLoopResult(s, choices[..|choices| - 1]);
      RangeKernelResult(s, before);
      RangeVisitsEachCellOnce(s);
      ApplyKernel(before, ForeachCellVariant(s, choices[|choices| - 1]))
  }

  /** The demo prints the first ten elements: with the 128^3 shape, element n
      holds n. */
  lemma DemoFirstCells(choices: seq<Variant>)
    requires |choices| > 0
    ensures Fits(DemoShape) && TotalCells(DemoShape) == 41943040
    ensures forall n :: 0 <= n < 10 ==> SearchLoopResult(DemoShape, choices)[n] == n
  {
    assert Fits(DemoShape);
    forall n | 0 <= n < 10
      ensures SearchLoopResult(DemoShape, choices)[n] == n
    {
      FirstRowSums(DemoShape, n);
    }
  }
}
