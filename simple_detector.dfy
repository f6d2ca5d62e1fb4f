/** `SimpleDetector`: reads frames of one variable over an optional time
    range and reports, for every frame, the cells that are local extrema
    of their neighbourhood and survive Laplacian de-duplication. */
module SimpleDetection {
  import opened Util
  import opened Grids
  import opened Extrema
  import opened TimeRanges
  import opened Detection
  import TrackModel

  /** `np.ma.filled`: masked cells take +inf in minimum mode and -inf in
      maximum mode; `inf` stands for infinity. */
  function Filled(c: Chart, rows: nat, cols: nat, mode: Mode, inf: int): (g: Grid)
    requires ValidChart(c, rows, cols)
    ensures IsGrid(g, rows, cols)
  {
    seq(rows, i requires 0 <= i < rows => seq(cols, j requires 0 <= j < cols =>
      if c.mask[i][j] then (if mode == Min then inf else -inf) else c.vals[i][j]))
  }

  /** `inf` plays infinity: it exceeds every unmasked value by more than
      the threshold, so each comparison the extremum test makes with a
      filled cell (`sorted(buffer)[8] - center_val > threshold` included)
      comes out as it does with `np.inf`. */
  predicate InfFills(c: Chart, rows: nat, cols: nat, threshold: int, inf: int)
    requires ValidChart(c, rows, cols)
  {
    forall i, j :: 0 <= i < rows && 0 <= j < cols && !c.mask[i][j] ==> Abs(c.vals[i][j]) + Abs(threshold) < inf
  }

  predicate InfFillsFile(f: NcFile, threshold: int, inf: int)
    requires ValidFile(f)
  {
    forall t :: 0 <= t < |f.frames| ==> InfFills(f.frames[t], f.rows, f.cols, threshold, inf)
  }

  /** Some cell of the Laplacian's four-point stencil around (i, j), other
      than (i, j) itself, is masked; boundaries wrap. */
  predicate StencilMasked(c: Chart, rows: nat, cols: nat, i: int, j: int)
    requires ValidChart(c, rows, cols) && rows > 0 && cols > 0
  {
    Neighbour(c.mask, rows, cols, i, j, 3, 0, 1) || Neighbour(c.mask, rows, cols, i, j, 3, 2, 1) ||
    Neighbour(c.mask, rows, cols, i, j, 3, 1, 0) || Neighbour(c.mask, rows, cols, i, j, 3, 1, 2)
  }

  /** `laplace(filled_chart, mode="wrap")` as floats; along each axis it
      sums `a[k-1] - 2*a[k] + a[k+1]`. Where the stencil reads no masked
      cell it is `lap`, the Laplacian of the frame's values. An unmasked
      cell beside a masked one gets the fill's infinity. A masked cell gets
      the opposite infinity from `-2*inf`, or NaN (`inf - inf`) when a
      masked neighbour adds the fill back. */
  function FilledLaplace(c: Chart, lap: Grid, rows: nat, cols: nat, mode: Mode): (g: seq<seq<Ext>>)
    requires ValidChart(c, rows, cols) && IsGrid(lap, rows, cols) && rows > 0 && cols > 0
    ensures IsGrid(g, rows, cols)
  {
    seq(rows, i requires 0 <= i < rows => seq(cols, j requires 0 <= j < cols =>
      if c.mask[i][j] then
        (if StencilMasked(c, rows, cols, i, j) then NaN else if mode == Min then NegInf else PosInf)
      else if StencilMasked(c, rows, cols, i, j) then (if mode == Min then PosInf else NegInf)
      else Fin(lap[i][j])))
  }

  /** The Laplacian stage as duplicate removal means to rank it: in
      maximum mode, the Laplacian of the negated filled frame, so that a
      peak scores high as a trough does in minimum mode. Minimum mode is
      the filled frame's Laplacian unchanged; maximum mode is its
      negation. */
  function OrientedLaplace(c: Chart, lap: Grid, rows: nat, cols: nat, mode: Mode): (g: seq<seq<Ext>>)
    requires ValidChart(c, rows, cols) && IsGrid(lap, rows, cols) && rows > 0 && cols > 0
    ensures IsGrid(g, rows, cols)
    ensures forall i, j :: 0 <= i < rows && 0 <= j < cols ==>
      g[i][j] == if mode == Min then FilledLaplace(c, lap, rows, cols, Min)[i][j]
                 else ExtNeg(FilledLaplace(c, lap, rows, cols, Max)[i][j])
  {
    FilledLaplace(c, Oriented(lap, rows, cols, mode), rows, cols, Min)
  }

  /** The extremum filter's output with the originally masked cells cleared. */
  function Candidates(c: Chart, rows: nat, cols: nat, size: nat, threshold: int, mode: Mode, inf: int): (g: Grid)
    requires ValidChart(c, rows, cols) && rows > 0 && cols > 0 && size >= 1
    ensures IsGrid(g, rows, cols)
  {
    var ext := FilterGrid(Filled(c, rows, cols, mode, inf), rows, cols, size, threshold, mode);
    seq(rows, i requires 0 <= i < rows => seq(cols, j requires 0 <= j < cols =>
      if c.mask[i][j] then 0 else ext[i][j]))
  }

  /** A grid holding 0 at masked cells and the filter output elsewhere is
      the candidate grid. */
  lemma MaskedCandidates(c: Chart, rows: nat, cols: nat, size: nat, threshold: int, mode: Mode, inf: int, cand: Grid)
    requires ValidChart(c, rows, cols) && rows > 0 && cols > 0 && size >= 1 && IsGrid(cand, rows, cols)
    requires forall i, j :: 0 <= i < rows && 0 <= j < cols ==>
      cand[i][j] == if c.mask[i][j] then 0 else FilterGrid(Filled(c, rows, cols, mode, inf), rows, cols, size, threshold, mode)[i][j]
    ensures cand == Candidates(c, rows, cols, size, threshold, mode, inf)
  {
    var expected := Candidates(c, rows, cols, size, threshold, mode, inf);
    forall i | 0 <= i < rows
      ensures cand[i] == expected[i]
    {
    }
  }

  /** The centres `detect` reports for one frame at time t, given the
      Laplacian of the filled frame. */
  function FrameCenters(c: Chart, lap: Grid, t: int, lats: seq<real>, lons: seq<real>, rows: nat, cols: nat,
                        size: nat, threshold: int, mode: Mode, inf: int): Result<seq<TrackModel.Center>>
    requires ValidChart(c, rows, cols) && IsGrid(lap, rows, cols) && |lats| == rows && |lons| == cols
    requires rows > 0 && cols > 0
  {
    if size % 2 != 1 then Err(ValueError)
    else if FilterFails(Filled(c, rows, cols, mode, inf), rows, cols, size, threshold, mode) then Err(IndexError)
    else
      var cells := NonzeroCells(Survivors(c, lap, rows, cols, size, threshold, mode, inf));
      assert forall k :: 0 <= k < |cells| ==> cells[k] in cells;
      Ok(CentersOf(cells, t, c.vals, lats, lons))
  }

  /** A frame fails exactly for an even window, or a one-cell window with a
      non-zero threshold in minimum mode. */
  lemma FrameFailsExactly(c: Chart, lap: Grid, t: int, lats: seq<real>, lons: seq<real>, rows: nat, cols: nat,
                          size: nat, threshold: int, mode: Mode, inf: int)
    requires ValidChart(c, rows, cols) && IsGrid(lap, rows, cols) && |lats| == rows && |lons| == cols
    requires rows > 0 && cols > 0
    ensures var r := FrameCenters(c, lap, t, lats, lons, rows, cols, size, threshold, mode, inf);
      (r.Err? <==> size % 2 != 1 || (size == 1 && threshold != 0 && mode == Min)) &&
      (r.Err? ==> r.error == (if size % 2 != 1 then ValueError else IndexError))
  {
    if size % 2 == 1 {
      FilterFailsExactly(Filled(c, rows, cols, mode, inf), rows, cols, size, threshold, mode);
    }
  }

  /** The frame's centres after duplicate removal. */
  function Survivors(c: Chart, lap: Grid, rows: nat, cols: nat, size: nat, threshold: int, mode: Mode, inf: int): (g: Grid)
    requires ValidChart(c, rows, cols) && IsGrid(lap, rows, cols) && rows > 0 && cols > 0 && size >= 1
    ensures IsGrid(g, rows, cols)
  {
    RemoveDupExt(OrientedLaplace(c, lap, rows, cols, mode), Candidates(c, rows, cols, size, threshold, mode, inf), rows, cols, 5)
  }

  /** Duplicate removal as written, on the filled frame's Laplacian in
      both modes. */
  function WrittenSurvivors(c: Chart, lap: Grid, rows: nat, cols: nat, size: nat, threshold: int, mode: Mode, inf: int): (g: Grid)
    requires ValidChart(c, rows, cols) && IsGrid(lap, rows, cols) && rows > 0 && cols > 0 && size >= 1
    ensures IsGrid(g, rows, cols)
  {
    RemoveDupExt(FilledLaplace(c, lap, rows, cols, mode), Candidates(c, rows, cols, size, threshold, mode, inf), rows, cols, 5)
  }

  /** `np.multiply(laplace(filled_chart), extrema)` cell by cell, with the
      Laplacian oriented: NaN at a masked cell and at a non-candidate beside
      one, +inf at a candidate beside one, and elsewhere the oriented
      Laplacian at a candidate and 0 at a non-candidate. */
  lemma LaplaceProductCell(c: Chart, lap: Grid, rows: nat, cols: nat, size: nat, threshold: int, mode: Mode, inf: int, i: nat, j: nat)
    requires ValidChart(c, rows, cols) && IsGrid(lap, rows, cols) && i < rows && j < cols && size >= 1
    ensures var cand := Candidates(c, rows, cols, size, threshold, mode, inf);
      ProductExt(OrientedLaplace(c, lap, rows, cols, mode), cand, rows, cols)[i][j] ==
        if c.mask[i][j] || (cand[i][j] == 0 && StencilMasked(c, rows, cols, i, j)) then NaN
        else if StencilMasked(c, rows, cols, i, j) then PosInf
        else if cand[i][j] == 1 then Fin(if mode == Min then lap[i][j] else -lap[i][j])
        else Fin(0)
  {
    CandidateCell(c, rows, cols, size, threshold, mode, inf, i, j);
  }

  /** A cell with a masked cell anywhere in its 5 x 5 window is never
      reported: the masked cell's Laplacian times 0 is NaN, and a window
      holding NaN has a NaN maximum. */
  lemma MaskedWindowDropped(c: Chart, lap: Grid, rows: nat, cols: nat, size: nat, threshold: int, mode: Mode, inf: int,
                            i: nat, j: nat, di: nat, dj: nat)
    requires ValidChart(c, rows, cols) && IsGrid(lap, rows, cols) && i < rows && j < cols && size >= 1
    requires di < 5 && dj < 5 && Neighbour(c.mask, rows, cols, i, j, 5, di, dj)
    ensures (i, j) !in NonzeroCells(Survivors(c, lap, rows, cols, size, threshold, mode, inf))
  {
    var fl := OrientedLaplace(c, lap, rows, cols, mode);
    var cand := Candidates(c, rows, cols, size, threshold, mode, inf);
    LaplaceProductCell(c, lap, rows, cols, size, threshold, mode, inf, Wrap(i + di - 2, rows), Wrap(j + dj - 2, cols));
    assert Neighbour(ProductExt(fl, cand, rows, cols), rows, cols, i, j, 5, di, dj).NaN?;
    NaNInWindowDropped(fl, cand, rows, cols, 5, i, j, di, dj);
    NonzeroCellAt(Survivors(c, lap, rows, cols, size, threshold, mode, inf), i, j);
  }

  /** A cell beside a masked cell is never reported. */
  lemma StencilMaskedDropped(c: Chart, lap: Grid, rows: nat, cols: nat, size: nat, threshold: int, mode: Mode, inf: int, i: nat, j: nat)
    requires ValidChart(c, rows, cols) && IsGrid(lap, rows, cols) && i < rows && j < cols && size >= 1
    requires StencilMasked(c, rows, cols, i, j)
    ensures (i, j) !in NonzeroCells(Survivors(c, lap, rows, cols, size, threshold, mode, inf))
  {
    if Neighbour(c.mask, rows, cols, i, j, 3, 0, 1) {
      MaskedWindowDropped(c, lap, rows, cols, size, threshold, mode, inf, i, j, 1, 2);
    } else if Neighbour(c.mask, rows, cols, i, j, 3, 2, 1) {
      MaskedWindowDropped(c, lap, rows, cols, size, threshold, mode, inf, i, j, 3, 2);
    } else if Neighbour(c.mask, rows, cols, i, j, 3, 1, 0) {
      MaskedWindowDropped(c, lap, rows, cols, size, threshold, mode, inf, i, j, 2, 1);
    } else {
      MaskedWindowDropped(c, lap, rows, cols, size, threshold, mode, inf, i, j, 2, 3);
    }
  }

  /** A cell is reported iff it is unmasked, outside the polar rows and an
      extremum of the filled frame, no cell of its Laplacian stencil is
      masked, its Laplacian (negated in maximum mode) is non-zero, and no
      cell of its wrapped 5 x 5 window of that Laplacian times the
      candidate flags exceeds it or is NaN: NaN beside masked cells, +inf
      at candidates beside them, and 0 at non-candidates all count. */
  lemma DetectedCells(c: Chart, lap: Grid, rows: nat, cols: nat, size: nat, threshold: int, mode: Mode, inf: int, i: nat, j: nat)
    requires ValidChart(c, rows, cols) && IsGrid(lap, rows, cols) && i < rows && j < cols && size >= 1
    ensures var p := ProductExt(OrientedLaplace(c, lap, rows, cols, mode), Candidates(c, rows, cols, size, threshold, mode, inf), rows, cols);
      var l := if mode == Min then lap[i][j] else -lap[i][j];
      (i, j) in NonzeroCells(Survivors(c, lap, rows, cols, size, threshold, mode, inf)) <==>
        !c.mask[i][j] && !ZeroedRow(i, rows, size / 2) &&
        FilterCell(Filled(c, rows, cols, mode, inf), rows, cols, i, j, size, threshold, mode) == Ok(true) &&
        !StencilMasked(c, rows, cols, i, j) && l != 0 &&
        ExtWindowAtMost(p, rows, cols, i, j, 5, Fin(l))
  {
    if StencilMasked(c, rows, cols, i, j) {
      StencilMaskedDropped(c, lap, rows, cols, size, threshold, mode, inf, i, j);
    } else if c.mask[i][j] {
      MaskedWindowDropped(c, lap, rows, cols, size, threshold, mode, inf, i, j, 2, 2);
    } else {
      UnmaskedCellDetected(c, lap, rows, cols, size, threshold, mode, inf, i, j);
    }
  }

  /** DetectedCells for a cell that is unmasked with an unmasked stencil. */
  lemma UnmaskedCellDetected(c: Chart, lap: Grid, rows: nat, cols: nat, size: nat, threshold: int, mode: Mode, inf: int, i: nat, j: nat)
    requires ValidChart(c, rows, cols) && IsGrid(lap, rows, cols) && i < rows && j < cols && size >= 1
    requires !c.mask[i][j] && !StencilMasked(c, rows, cols, i, j)
    ensures var p := ProductExt(OrientedLaplace(c, lap, rows, cols, mode), Candidates(c, rows, cols, size, threshold, mode, inf), rows, cols);
      var l := if mode == Min then lap[i][j] else -lap[i][j];
      (i, j) in NonzeroCells(Survivors(c, lap, rows, cols, size, threshold, mode, inf)) <==>
        !ZeroedRow(i, rows, size / 2) &&
        FilterCell(Filled(c, rows, cols, mode, inf), rows, cols, i, j, size, threshold, mode) == Ok(true) &&
        l != 0 &&
        ExtWindowAtMost(p, rows, cols, i, j, 5, Fin(l))
  {
    var fl := OrientedLaplace(c, lap, rows, cols, mode);
    var cand := Candidates(c, rows, cols, size, threshold, mode, inf);
    var p := ProductExt(fl, cand, rows, cols);
    var l := if mode == Min then lap[i][j] else -lap[i][j];
    var r := Survivors(c, lap, rows, cols, size, threshold, mode, inf);
    assert r == RemoveDupExt(fl, cand, rows, cols, 5);
    LaplaceProductCell(c, lap, rows, cols, size, threshold, mode, inf, i, j);
    CandidateCell(c, rows, cols, size, threshold, mode, inf, i, j);
    if cand[i][j] == 1 {
      assert p[i][j] == Fin(l);
    } else {
      assert p[i][j] == Fin(0);
    }
    RemoveDupExtCell(fl, cand, rows, cols, 5, i, j, l);
    NonzeroCellAt(r, i, j);
  }

  /** No cell of the frame is masked. */
  predicate Unmasked(c: Chart, rows: nat, cols: nat)
    requires ValidChart(c, rows, cols)
  {
    forall i, j :: 0 <= i < rows && 0 <= j < cols ==> !c.mask[i][j]
  }

  /** On an unmasked frame filling changes nothing, the Laplacian stage is
      finite, and maximum-mode candidates pass the test on the frame. */
  lemma UnmaskedStage(c: Chart, lap: Grid, rows: nat, cols: nat, size: nat, threshold: int, mode: Mode, inf: int)
    requires ValidChart(c, rows, cols) && IsGrid(lap, rows, cols) && rows > 0 && cols > 0 && size >= 1
    requires Unmasked(c, rows, cols)
    ensures Filled(c, rows, cols, mode, inf) == c.vals
    ensures FilledLaplace(c, lap, rows, cols, mode) == Lift(lap, rows, cols)
    ensures OrientedLaplace(c, lap, rows, cols, mode) == Lift(Oriented(lap, rows, cols, mode), rows, cols)
    ensures mode == Max ==> MaxCandidates(c.vals, Candidates(c, rows, cols, size, threshold, mode, inf), rows, cols, size, threshold)
  {
    var g := Filled(c, rows, cols, mode, inf);
    assert g == c.vals by {
      forall i | 0 <= i < rows
        ensures g[i] == c.vals[i]
      {
      }
    }
    var fl := FilledLaplace(c, lap, rows, cols, mode);
    assert fl == Lift(lap, rows, cols) by {
      forall i | 0 <= i < rows
        ensures fl[i] == Lift(lap, rows, cols)[i]
      {
      }
    }
    var ol := OrientedLaplace(c, lap, rows, cols, mode);
    var o := Oriented(lap, rows, cols, mode);
    assert ol == Lift(o, rows, cols) by {
      forall i | 0 <= i < rows
        ensures ol[i] == Lift(o, rows, cols)[i]
      {
      }
    }
    forall a, b | 0 <= a < rows && 0 <= b < cols
      ensures var cand := Candidates(c, rows, cols, size, threshold, mode, inf);
        (cand[a][b] == 0 || cand[a][b] == 1) &&
        (cand[a][b] == 1 ==> FilterCell(c.vals, rows, cols, a, b, size, threshold, mode) == Ok(true))
    {
      CandidateCell(c, rows, cols, size, threshold, mode, inf, a, b);
    }
  }

  /** As written, maximum mode reports nothing on an unmasked frame: a
      maximum's Laplacian is at most 0, and a lower stencil neighbour is no
      candidate, so its 0 outranks the maximum in duplicate removal. */
  lemma MaxModeReportsNothing(c: Chart, lap: Grid, rows: nat, cols: nat, size: nat, threshold: int, inf: int, i: nat, j: nat)
    requires ValidChart(c, rows, cols) && IsGrid(lap, rows, cols) && i < rows && j < cols
    requires size % 2 == 1 && size >= 3
    requires Unmasked(c, rows, cols) && LaplacianAt(c.vals, lap, rows, cols, i, j)
    ensures (i, j) !in NonzeroCells(WrittenSurvivors(c, lap, rows, cols, size, threshold, Max, inf))
  {
    var cand := Candidates(c, rows, cols, size, threshold, Max, inf);
    UnmaskedStage(c, lap, rows, cols, size, threshold, Max, inf);
    RemoveDupExtFinite(lap, cand, rows, cols, 5);
    MaxModeDropsAll(c.vals, lap, cand, rows, cols, size, threshold, i, j);
    NonzeroCellAt(WrittenSurvivors(c, lap, rows, cols, size, threshold, Max, inf), i, j);
  }

  /** With the Laplacian oriented, a maximum-mode candidate of an unmasked
      frame that strictly tops its stencil, and whose peak is the sharpest
      among the candidates of its 5 x 5 window, is reported. */
  lemma MaxModeKeepsPeak(c: Chart, lap: Grid, rows: nat, cols: nat, size: nat, threshold: int, inf: int, i: nat, j: nat)
    requires ValidChart(c, rows, cols) && IsGrid(lap, rows, cols) && i < rows && j < cols && size >= 1
    requires Unmasked(c, rows, cols) && LaplacianAt(c.vals, lap, rows, cols, i, j) && StrictPeak(c.vals, rows, cols, i, j)
    requires Candidates(c, rows, cols, size, threshold, Max, inf)[i][j] == 1
    requires forall di, dj :: 0 <= di < 5 && 0 <= dj < 5 ==>
      Neighbour(Candidates(c, rows, cols, size, threshold, Max, inf), rows, cols, i, j, 5, di, dj) == 0 ||
      lap[i][j] <= Neighbour(lap, rows, cols, i, j, 5, di, dj)
    ensures (i, j) in NonzeroCells(Survivors(c, lap, rows, cols, size, threshold, Max, inf))
  {
    var cand := Candidates(c, rows, cols, size, threshold, Max, inf);
    UnmaskedStage(c, lap, rows, cols, size, threshold, Max, inf);
    RemoveDupExtFinite(Oriented(lap, rows, cols, Max), cand, rows, cols, 5);
    OrientedKeepsPeak(c.vals, lap, cand, rows, cols, size, threshold, i, j);
    NonzeroCellAt(Survivors(c, lap, rows, cols, size, threshold, Max, inf), i, j);
  }

  lemma CandidateCell(c: Chart, rows: nat, cols: nat, size: nat, threshold: int, mode: Mode, inf: int, i: nat, j: nat)
    requires ValidChart(c, rows, cols) && i < rows && j < cols && size >= 1
    ensures Candidates(c, rows, cols, size, threshold, mode, inf)[i][j] ==
      Bit(!c.mask[i][j] && !ZeroedRow(i, rows, size / 2) &&
          FilterCell(Filled(c, rows, cols, mode, inf), rows, cols, i, j, size, threshold, mode) == Ok(true))
  {
  }

  /** The centres `detect` reports for covered frame `it`, as if that
      frame had been read on its own. */
  function StepCenters(f: NcFile, trange: Option<(int, int)>, laps: seq<Grid>, it: nat,
                       size: nat, threshold: int, mode: Mode, inf: int): Result<seq<TrackModel.Center>>
    requires ValidFile(f) && RangeInFile(f, trange) && !EmptyRange(trange) && it < NumSteps(f, trange)
    requires |laps| == |f.frames| && forall t :: 0 <= t < |laps| ==> IsGrid(laps[t], f.rows, f.cols)
  {
    CoveredFrame(f, trange, it);
    FrameCenters(f.frames[Base(trange) + it], laps[Base(trange) + it], f.times[Base(trange) + it],
                 f.lats, f.lons, f.rows, f.cols, size, threshold, mode, inf)
  }

  lemma StepCentersUnfold(f: NcFile, trange: Option<(int, int)>, laps: seq<Grid>, it: nat,
                          size: nat, threshold: int, mode: Mode, inf: int)
    requires ValidFile(f) && RangeInFile(f, trange) && !EmptyRange(trange) && it < NumSteps(f, trange)
    requires |laps| == |f.frames| && forall t :: 0 <= t < |laps| ==> IsGrid(laps[t], f.rows, f.cols)
    ensures 0 <= Base(trange) + it < |f.frames|
    ensures StepCenters(f, trange, laps, it, size, threshold, mode, inf) ==
      FrameCenters(f.frames[Base(trange) + it], laps[Base(trange) + it], f.times[Base(trange) + it],
                   f.lats, f.lons, f.rows, f.cols, size, threshold, mode, inf)
  {
    CoveredFrame(f, trange, it);
  }

  /** Every covered frame fails exactly when the first one does. */
  lemma StepFailsExactly(f: NcFile, trange: Option<(int, int)>, laps: seq<Grid>, it: nat,
                         size: nat, threshold: int, mode: Mode, inf: int)
    requires ValidFile(f) && RangeInFile(f, trange) && !EmptyRange(trange) && it < NumSteps(f, trange)
    requires |laps| == |f.frames| && forall t :: 0 <= t < |laps| ==> IsGrid(laps[t], f.rows, f.cols)
    ensures var r := StepCenters(f, trange, laps, it, size, threshold, mode, inf);
      (r.Err? <==> size % 2 != 1 || (size == 1 && threshold != 0 && mode == Min)) &&
      (r.Err? ==> r.error == (if size % 2 != 1 then ValueError else IndexError))
  {
    CoveredFrame(f, trange, it);
    StepCentersUnfold(f, trange, laps, it, size, threshold, mode, inf);
    FrameFailsExactly(f.frames[Base(trange) + it], laps[Base(trange) + it], f.times[Base(trange) + it],
                      f.lats, f.lons, f.rows, f.cols, size, threshold, mode, inf);
  }

  /** The lists reported so far are those of the first covered frames. */
  predicate Reported(f: NcFile, trange: Option<(int, int)>, laps: seq<Grid>, centers: seq<seq<TrackModel.Center>>,
                     size: nat, threshold: int, mode: Mode, inf: int)
    requires ValidFile(f) && RangeInFile(f, trange) && !EmptyRange(trange) && |centers| <= NumSteps(f, trange)
    requires |laps| == |f.frames| && forall t :: 0 <= t < |laps| ==> IsGrid(laps[t], f.rows, f.cols)
  {
    forall k :: 0 <= k < |centers| ==> StepCenters(f, trange, laps, k, size, threshold, mode, inf) == Ok(centers[k])
  }

  lemma ReportedSnoc(f: NcFile, trange: Option<(int, int)>, laps: seq<Grid>, centers: seq<seq<TrackModel.Center>>,
                     cs: seq<TrackModel.Center>, size: nat, threshold: int, mode: Mode, inf: int)
    requires ValidFile(f) && RangeInFile(f, trange) && !EmptyRange(trange) && |centers| < NumSteps(f, trange)
    requires |laps| == |f.frames| && forall t :: 0 <= t < |laps| ==> IsGrid(laps[t], f.rows, f.cols)
    requires Reported(f, trange, laps, centers, size, threshold, mode, inf)
    requires StepCenters(f, trange, laps, |centers|, size, threshold, mode, inf) == Ok(cs)
    ensures Reported(f, trange, laps, centers + [cs], size, threshold, mode, inf)
  {
    var centers' := centers + [cs];
    forall k | 0 <= k < |centers'|
      ensures StepCenters(f, trange, laps, k, size, threshold, mode, inf) == Ok(centers'[k])
    {
      if k < |centers| {
        assert centers'[k] == centers[k];
      }
    }
  }

  class SimpleDetector {
    const file: NcFile
    const trange: Option<(int, int)>
    /** `_open_file`. */
    var isOpen: bool

    constructor(file: NcFile, trange: Option<(int, int)>)
      ensures this.file == file && this.trange == trange && !isOpen
    {
      this.file := file;
      this.trange := trange;
      isOpen := false;
    }

    /** `get_var`: the file is opened once the checks pass. */
    method GetVar(chart: ChartArg) returns (r: Result<Option<VarData>>)
      modifies this
      ensures r == GetVarSpec(file, trange, chart)
      ensures isOpen == (old(isOpen) || OpensFile(trange, chart))
    {
      var check := GetVarCheck(trange, chart);
      if check.Err? {
        return Err(check.error);
      }
      if check.value.None? {
        return Ok(None);
      }
      isOpen := true;
      var d := Read(file, check.value.value);
      if d.Err? {
        return Err(d.error);
      }
      return Ok(Some(d.value));
    }

    /** `split`: TypeError for a non-integer count, RuntimeError once the
        file is open, otherwise one fresh, unopened detector per range. */
    method Split(num: PyValue) returns (r: Result<seq<SimpleDetector>>)
      ensures num.PyOther? ==> r == Err(TypeError)
      ensures num.PyInt? && isOpen ==> r == Err(RuntimeError)
      ensures num.PyInt? && !isOpen ==>
        var s := SplitCount(SplitSpan(file, trange).0, SplitSpan(file, trange).1, num.i);
        (r.Err? <==> s.Err?) && (r.Err? ==> r.error == s.error) &&
        (r.Ok? ==>
          |r.value| == |s.value| &&
          forall k :: 0 <= k < |r.value| ==>
            fresh(r.value[k]) && r.value[k].file == file && r.value[k].trange == Some(s.value[k]) && !r.value[k].isOpen)
    {
      if num.PyOther? {
        return Err(TypeError);
      }
      if isOpen {
        return Err(RuntimeError);
      }
      var (tstart, len) := SplitSpan(file, trange);
      var s := SplitCount(tstart, len, num.i);
      if s.Err? {
        return Err(s.error);
      }
      var ranges := s.value;
      var parts: seq<SimpleDetector> := [];
      for k := 0 to |ranges|
        invariant |parts| == k
        invariant forall k' :: 0 <= k' < k ==>
          fresh(parts[k']) && parts[k'].file == file && parts[k'].trange == Some(ranges[k']) && !parts[k'].isOpen
      {
        var d := new SimpleDetector(file, Some(ranges[k]));
        parts := parts + [d];
      }
      return Ok(parts);
    }

    /** One frame of `detect`: fill, filter, clear masked cells, remove
        duplicates, list the centres. */
    static method ProcessFrame(c: Chart, lap: Grid, t: int, lats: seq<real>, lons: seq<real>, rows: nat, cols: nat,
                               size: nat, threshold: int, mode: Mode, inf: int)
      returns (r: Result<seq<TrackModel.Center>>)
      requires ValidChart(c, rows, cols) && IsGrid(lap, rows, cols) && |lats| == rows && |lons| == cols
      requires rows > 0 && cols > 0 && InfFills(c, rows, cols, threshold, inf)
      ensures r == FrameCenters(c, lap, t, lats, lons, rows, cols, size, threshold, mode, inf)
    {
      var filled := Filled(c, rows, cols, mode, inf);
      var ext := ExtremaFilter(filled, rows, cols, size, threshold, mode);
      if ext.Err? {
        return Err(ext.error);
      }
      var a := ext.value;
      ghost var ext' := FilterGrid(filled, rows, cols, size, threshold, mode);
      assert forall i, j :: 0 <= i < rows && 0 <= j < cols ==> a[i, j] == ext'[i][j];
      if exists i, j :: 0 <= i < rows && 0 <= j < cols && c.mask[i][j] {
        ClearMasked(a, c.mask);
      }
      assert forall i, j :: 0 <= i < rows && 0 <= j < cols ==> a[i, j] == if c.mask[i][j] then 0 else ext'[i][j];
      var cand := Contents(a);
      MaskedCandidates(c, rows, cols, size, threshold, mode, inf, cand);
      var cells := NonzeroCells(RemoveDupExt(OrientedLaplace(c, lap, rows, cols, mode), cand, rows, cols, 5));
      assert forall k :: 0 <= k < |cells| ==> cells[k] in cells;
      return Ok(CentersOf(cells, t, c.vals, lats, lons));
    }

    /** The buffered chunk holds the frames from `start` up to the next
        `chartBuffer` frames or the last covered frame. */
    predicate ChunkFrom(chunk: Option<VarData>, start: nat, chartBuffer: nat)
      requires ValidFile(file) && RangeInFile(file, trange) && !EmptyRange(trange) && start < NumSteps(file, trange)
    {
      CoveredFrames(file, trange);
      chunk == Some(Frames(file.frames[Base(trange) + start .. Base(trange) + Util.Min(start + chartBuffer, NumSteps(file, trange))]))
    }

    /** A chunk started at `start` holds frame `it` at offset `it - start`. */
    lemma ChunkFrame(chunk: Option<VarData>, start: nat, chartBuffer: nat, it: nat)
      requires ValidFile(file) && RangeInFile(file, trange) && !EmptyRange(trange) && it < NumSteps(file, trange)
      requires start <= it < start + chartBuffer && ChunkFrom(chunk, start, chartBuffer)
      ensures 0 <= Base(trange) + it < |file.frames|
      ensures chunk.Some? && chunk.value.Frames? && it - start < |chunk.value.charts|
      ensures chunk.value.charts[it - start] == file.frames[Base(trange) + it]
    {
      CoveredFrames(file, trange);
    }

    /** The chunk buffer at iteration `it`: reloaded with the next
        `chartBuffer` frames when `it` is a multiple of `chartBuffer`. */
    method NextChunk(it: nat, chunk: Option<VarData>, ghost start: nat, chartBuffer: nat)
      returns (chunk': Option<VarData>, ghost start': nat)
      requires ValidFile(file) && RangeInFile(file, trange) && !EmptyRange(trange) && chartBuffer > 0
      requires it < NumSteps(file, trange) && isOpen
      requires it > 0 ==> start < it <= start + chartBuffer && start % chartBuffer == 0 && ChunkFrom(chunk, start, chartBuffer)
      modifies this
      ensures isOpen
      ensures start' <= it < start' + chartBuffer && start' % chartBuffer == 0 && ChunkFrom(chunk', start', chartBuffer)
      ensures it % chartBuffer == it - start'
    {
      chunk', start' := chunk, start;
      if it % chartBuffer == 0 {
        chunk' := LoadChunk(it, chartBuffer);
        start' := it;
      } else {
        ChunkContinues(it, start, chartBuffer);
      }
    }

    /** `self.get_var(chart=(it, min(it + chartBuffer, num_steps)))`. */
    method LoadChunk(it: nat, chartBuffer: nat) returns (chunk: Option<VarData>)
      requires ValidFile(file) && RangeInFile(file, trange) && !EmptyRange(trange) && chartBuffer > 0
      requires it < NumSteps(file, trange)
      modifies this
      ensures isOpen
      ensures ChunkFrom(chunk, it, chartBuffer)
    {
      var b := Util.Min(it + chartBuffer, NumSteps(file, trange));
      GetVarChunk(file, trange, it, b);
      var got := GetVar(TupleChart([PyInt(it), PyInt(b)]));
      chunk := got.value;
    }

    /** One pass of the `detect` loop: take frame `it` from the chunk at
        offset `it % chartBuffer` and detect. */
    method DetectStep(laps: seq<Grid>, it: nat, chunk: Option<VarData>, ghost start: nat,
                      size: nat, threshold: int, chartBuffer: nat, mode: Mode, inf: int)
      returns (chunk': Option<VarData>, ghost start': nat, res: Result<seq<TrackModel.Center>>)
      requires ValidFile(file) && RangeInFile(file, trange) && !EmptyRange(trange) && chartBuffer > 0
      requires |laps| == |file.frames| && forall t :: 0 <= t < |laps| ==> IsGrid(laps[t], file.rows, file.cols)
      requires InfFillsFile(file, threshold, inf)
      requires it < NumSteps(file, trange) && isOpen
      requires it > 0 ==> start < it <= start + chartBuffer && start % chartBuffer == 0 && ChunkFrom(chunk, start, chartBuffer)
      modifies this
      ensures isOpen
      ensures start' <= it < start' + chartBuffer && start' % chartBuffer == 0 && ChunkFrom(chunk', start', chartBuffer)
      ensures res == StepCenters(file, trange, laps, it, size, threshold, mode, inf)
    {
      chunk', start' := NextChunk(it, chunk, start, chartBuffer);
      var ib := it % chartBuffer;
      ChunkFrame(chunk', start', chartBuffer, it);
      var frame := chunk'.value.charts[ib];
      StepCentersUnfold(file, trange, laps, it, size, threshold, mode, inf);
      res := ProcessFrame(frame, laps[Base(trange) + it], file.times[Base(trange) + it], file.lats, file.lons,
                          file.rows, file.cols, size, threshold, mode, inf);
    }

    /** `detect`: frames are read in chunks of `chartBuffer` and frame `it`
        is taken at offset `it % chartBuffer` of its chunk; the result is
        one centre list per covered frame, as if each frame had been read
        on its own. */
    method Detect(laps: seq<Grid>, size: nat, threshold: int, chartBuffer: nat, mode: Mode, inf: int)
      returns (r: Result<seq<seq<TrackModel.Center>>>)
      requires ValidFile(file) && RangeInFile(file, trange) && chartBuffer > 0
      requires |laps| == |file.frames| && forall t :: 0 <= t < |laps| ==> IsGrid(laps[t], file.rows, file.cols)
      requires InfFillsFile(file, threshold, inf)
      modifies this
      ensures isOpen == (old(isOpen) || !EmptyRange(trange))
      ensures EmptyRange(trange) ==> r == Ok([])
      ensures r.Err? <==> NumSteps(file, trange) > 0 && (size % 2 != 1 || (size == 1 && threshold != 0 && mode == Min))
      ensures r.Err? ==> r.error == (if size % 2 != 1 then ValueError else IndexError)
      ensures r.Ok? && !EmptyRange(trange) ==>
        |r.value| == NumSteps(file, trange) &&
        forall it :: 0 <= it < |r.value| ==> StepCenters(file, trange, laps, it, size, threshold, mode, inf) == Ok(r.value[it])
    {
      if EmptyRange(trange) {
        return Ok([]);
      }
      isOpen := true;
      var n := NumSteps(file, trange);
      var centers: seq<seq<TrackModel.Center>> := [];
      var chunk: Option<VarData> := None;
      ghost var start: nat := 0;
      var it := 0;
      while it < n
        invariant 0 <= it <= n && isOpen
        invariant |centers| == it
        invariant Reported(file, trange, laps, centers, size, threshold, mode, inf)
        invariant it > 0 ==> start < it <= start + chartBuffer && start % chartBuffer == 0 && ChunkFrom(chunk, start, chartBuffer)
      {
        var res;
        chunk, start, res := DetectStep(laps, it, chunk, start, size, threshold, chartBuffer, mode, inf);
        if res.Err? {
          StepFailsExactly(file, trange, laps, it, size, threshold, mode, inf);
          return Err(res.error);
        }
        ReportedSnoc(file, trange, laps, centers, res.value, size, threshold, mode, inf);
        centers := centers + [res.value];
        it := it + 1;
      }
      if n > 0 {
        StepFailsExactly(file, trange, laps, 0, size, threshold, mode, inf);
      }
      return Ok(centers);
    }
  }
}
