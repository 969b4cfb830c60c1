/**
 * The cache behind local hypsometric tints: a high-pass filtered grid
 * divided by the local standard deviation, built from a low-pass grid and a
 * standard-deviation grid that are kept between calls. The filters are
 * parameters; what is modelled is which cached grid is recomputed when.
 */
module LocalGridModels {
  import opened Wrappers
  import opened Grids

  /**
   * The operators the cache combines, `P` being the Laplacian pyramid the
   * standard-deviation filter reads: the Gaussian low pass with a standard
   * deviation, the standard-deviation filter over a number of levels, the
   * difference-quotient `(a - b) / (c + 1)`, and the rescaling to the
   * original grid's range.
   */
  datatype Operators<!P> = Operators(
    lowPass: (real, GridValue) -> GridValue,
    standardDeviation: (int, Option<P>, GridValue) -> GridValue,
    diffDiv: (GridValue, GridValue, GridValue) -> GridValue,
    scaleToRange: (Option<seq<real>>, GridValue) -> GridValue)

  /** The fields of a `LocalGridModel`; `None` is a null reference. */
  datatype CacheState<!P> = CacheState(
    filtered: Option<GridValue>,
    lowPassStd: real,
    stdLevels: int,
    original: Option<GridValue>,
    minMax: Option<seq<real>>,
    pyramid: Option<P>,
    lowPass: Option<GridValue>,
    std: Option<GridValue>)

  /** A new cache: nothing loaded, nothing cached, standard deviation 11 and 3 levels. */
  function Initial<P>(): (s: CacheState<P>)
    ensures s.lowPassStd == 11.0 && s.stdLevels == 3
    ensures s.filtered.None? && s.original.None? && s.lowPass.None? && s.std.None?
  {
    CacheState(None, 11.0, 3, None, None, None, None, None)
  }

  /** `setGrid`: stores the three references and clears no cache. */
  function StoreGrid<P>(s: CacheState<P>, grid: Option<GridValue>, minMax: Option<seq<real>>, pyramid: Option<P>): (t: CacheState<P>)
    ensures t.original == grid && t.minMax == minMax && t.pyramid == pyramid
    ensures t.filtered == s.filtered && t.lowPass == s.lowPass && t.std == s.std
    ensures t.lowPassStd == s.lowPassStd && t.stdLevels == s.stdLevels
  {
    s.(original := grid, minMax := minMax, pyramid := pyramid)
  }

  /** `updateLowPassGrid`: recomputes the low-pass grid when a grid is loaded. */
  function UpdateLowPass<P>(ops: Operators<P>, s: CacheState<P>): (t: CacheState<P>)
  {
    if s.original.Some? then s.(lowPass := Some(ops.lowPass(s.lowPassStd, s.original.value))) else s
  }

  /** `updateStdGrid`: recomputes the standard-deviation grid when a grid is loaded. */
  function UpdateStd<P>(ops: Operators<P>, s: CacheState<P>): (t: CacheState<P>)
  {
    if s.original.Some? then s.(std := Some(ops.standardDeviation(s.stdLevels, s.pyramid, s.original.value))) else s
  }

  /** The filtered grid made from the loaded grid and the two cached grids. */
  function Combine<P>(ops: Operators<P>, original: GridValue, minMax: Option<seq<real>>, lowPass: GridValue, std: GridValue): GridValue {
    ops.scaleToRange(minMax, ops.diffDiv(original, lowPass, std))
  }

  /**
   * `updateFilteredGrid`: nothing without a loaded grid; otherwise the
   * missing low-pass and standard-deviation grids are computed first, then
   * the filtered grid is rebuilt from the cached ones.
   */
  function UpdateFiltered<P>(ops: Operators<P>, s: CacheState<P>): (t: CacheState<P>)
    ensures s.original.None? ==> t == s
    ensures s.original.Some? ==> t.lowPass.Some? && t.std.Some? && t.filtered.Some?
    ensures s.original.Some? ==> t.filtered.value == Combine(ops, s.original.value, s.minMax, t.lowPass.value, t.std.value)
    ensures s.lowPass.Some? ==> t.lowPass == s.lowPass
    ensures s.std.Some? ==> t.std == s.std
    ensures t.lowPassStd == s.lowPassStd && t.stdLevels == s.stdLevels && t.original == s.original
    ensures t.minMax == s.minMax && t.pyramid == s.pyramid
  {
    if s.original.None? then s
    else
      var s1 := if s.lowPass.None? then UpdateLowPass(ops, s) else s;
      var s2 := if s1.std.None? then UpdateStd(ops, s1) else s1;
      s2.(filtered := Some(Combine(ops, s2.original.value, s2.minMax, s2.lowPass.value, s2.std.value)))
  }

  /** `getFilteredGrid`: the new state and the returned grid. */
  function GetFiltered<P>(ops: Operators<P>, s: CacheState<P>): (r: (CacheState<P>, Option<GridValue>))
    ensures s.filtered.Some? ==> r == (s, s.filtered)
    ensures s.filtered.None? ==> r == (UpdateFiltered(ops, s), UpdateFiltered(ops, s).filtered)
  {
    if s.filtered.None? then var t := UpdateFiltered(ops, s); (t, t.filtered) else (s, s.filtered)
  }

  /** `setLocalGridLowPassStd`: stores the value, recomputes the low-pass grid, then the filtered grid. */
  function SetLowPassStd<P>(ops: Operators<P>, s: CacheState<P>, lowPassStd: real): (t: CacheState<P>)
    ensures t.lowPassStd == lowPassStd && t.stdLevels == s.stdLevels
  {
    UpdateFiltered(ops, UpdateLowPass(ops, s.(lowPassStd := lowPassStd)))
  }

  /** `setLocalGridStandardDeviationLevels`: stores the value, recomputes the std grid, then the filtered grid. */
  function SetStdLevels<P>(ops: Operators<P>, s: CacheState<P>, levels: int): (t: CacheState<P>)
    ensures t.stdLevels == levels && t.lowPassStd == s.lowPassStd
  {
    UpdateFiltered(ops, UpdateStd(ops, s.(stdLevels := levels)))
  }

  /** A cached filtered grid is returned as it is, and asking again changes nothing. */
  lemma GetFilteredIdempotent<P>(ops: Operators<P>, s: CacheState<P>)
    ensures s.original.Some? ==> GetFiltered(ops, s).1.Some?
    ensures GetFiltered(ops, GetFiltered(ops, s).0) == GetFiltered(ops, s)
  {
  }

  /**
   * `setGrid` clears no cache: once a filtered grid exists, loading another
   * grid still yields the old filtered grid on the next request.
   */
  lemma SetGridKeepsStaleResult<P>(ops: Operators<P>, s: CacheState<P>, grid: Option<GridValue>,
                                   minMax: Option<seq<real>>, pyramid: Option<P>)
    requires s.filtered.Some?
    ensures GetFiltered(ops, StoreGrid(s, grid, minMax, pyramid)).1 == s.filtered
  {
  }

  /**
   * With a grid loaded, a new low-pass deviation rebuilds the low-pass grid
   * from it and the filtered grid from that; a cached std grid is kept.
   */
  lemma SetLowPassStdRecomputes<P>(ops: Operators<P>, s: CacheState<P>, lowPassStd: real)
    requires s.original.Some?
    ensures var t := SetLowPassStd(ops, s, lowPassStd);
      t.lowPass == Some(ops.lowPass(lowPassStd, s.original.value)) &&
      (s.std.Some? ==> t.std == s.std) &&
      t.filtered == Some(Combine(ops, s.original.value, s.minMax, t.lowPass.value, t.std.value))
  {
  }

  /**
   * With a grid loaded, a new level count rebuilds the std grid from it and
   * the filtered grid from that; a cached low-pass grid is kept.
   */
  lemma SetStdLevelsRecomputes<P>(ops: Operators<P>, s: CacheState<P>, levels: int)
    requires s.original.Some?
    ensures var t := SetStdLevels(ops, s, levels);
      t.std == Some(ops.standardDeviation(levels, s.pyramid, s.original.value)) &&
      (s.lowPass.Some? ==> t.lowPass == s.lowPass) &&
      t.filtered == Some(Combine(ops, s.original.value, s.minMax, t.lowPass.value, t.std.value))
  {
  }

  /** Without a loaded grid the setters only store their value. */
  lemma SettersWithoutGrid<P>(ops: Operators<P>, s: CacheState<P>, lowPassStd: real, levels: int)
    requires s.original.None?
    ensures SetLowPassStd(ops, s, lowPassStd) == s.(lowPassStd := lowPassStd)
    ensures SetStdLevels(ops, s, levels) == s.(stdLevels := levels)
  {
  }

  class LocalGridModel<!P> {
    const ops: Operators<P>
    var filteredGrid: Option<GridValue>
    var localGridLowPassStd: real
    var localGridStandardDeviationLevels: int
    var originalGrid: Option<GridValue>
    var originalGridMinMax: Option<seq<real>>
    var originalGridLaplacianPyramid: Option<P>
    var lowPassGrid: Option<GridValue>
    var stdGrid: Option<GridValue>

    /** The fields as one value. */
    function State(): CacheState<P>
      reads this
    {
      CacheState(filteredGrid, localGridLowPassStd, localGridStandardDeviationLevels, originalGrid,
                 originalGridMinMax, originalGridLaplacianPyramid, lowPassGrid, stdGrid)
    }

    constructor (ops: Operators<P>)
      ensures this.ops == ops && State() == Initial()
    {
      this.ops := ops;
      filteredGrid := None;
      localGridLowPassStd := 11.0;
      localGridStandardDeviationLevels := 3;
      originalGrid := None;
      originalGridMinMax := None;
      originalGridLaplacianPyramid := None;
      lowPassGrid := None;
      stdGrid := None;
    }

    method SetGrid(grid: Option<GridValue>, minMax: Option<seq<real>>, laplacianPyramid: Option<P>)
      modifies this
      ensures State() == StoreGrid(old(State()), grid, minMax, laplacianPyramid)
    {
      originalGrid := grid;
      originalGridMinMax := minMax;
      originalGridLaplacianPyramid := laplacianPyramid;
    }

    method GetFilteredGrid() returns (g: Option<GridValue>)
      modifies this
      ensures (State(), g) == GetFiltered(ops, old(State()))
    {
      if filteredGrid.None? {
        UpdateFilteredGrid();
      }
      return filteredGrid;
    }

    method UpdateLowPassGrid()
      modifies this
      ensures State() == UpdateLowPass(ops, old(State()))
    {
      if originalGrid.Some? {
        lowPassGrid := Some(ops.lowPass(localGridLowPassStd, originalGrid.value));
      }
    }

    method UpdateStdGrid()
      modifies this
      ensures State() == UpdateStd(ops, old(State()))
    {
      if originalGrid.Some? {
        stdGrid := Some(ops.standardDeviation(localGridStandardDeviationLevels, originalGridLaplacianPyramid, originalGrid.value));
      }
    }

    method UpdateFilteredGrid()
      modifies this
      ensures State() == UpdateFiltered(ops, old(State()))
    {
      if originalGrid.None? {
        return;
      }
      if lowPassGrid.None? {
        UpdateLowPassGrid();
      }
      if stdGrid.None? {
        UpdateStdGrid();
      }
      var difDiv := ops.diffDiv(originalGrid.value, lowPassGrid.value, stdGrid.value);
      filteredGrid := Some(ops.scaleToRange(originalGridMinMax, difDiv));
    }

    method SetLocalGridLowPassStd(lowPassStd: real)
      modifies this
      ensures State() == SetLowPassStd(ops, old(State()), lowPassStd)
    {
      localGridLowPassStd := lowPassStd;
      UpdateLowPassGrid();
      UpdateFilteredGrid();
    }

    method SetLocalGridStandardDeviationLevels(levels: int)
      modifies this
      ensures State() == SetStdLevels(ops, old(State()), levels)
    {
      localGridStandardDeviationLevels := levels;
      UpdateStdGrid();
      UpdateFilteredGrid();
    }
  }
}
