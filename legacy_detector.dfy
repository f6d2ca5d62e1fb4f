/** The Python 2 `RectGrid`: the same reading and splitting as
    `SimpleDetector`, but the extremum filter runs on the raw frame with
    no fill value and no clearing of masked cells. */
module RectGridDetection {
  import opened Util
  import opened Grids
  import opened Extrema
  import opened TimeRanges
  import opened Detection
  import TrackModel
  import SimpleDetection

  /** The centres `detect` reports for one frame at time t, given the
      Laplacian of the frame. */
  function RectFrameCenters(c: Chart, lap: Grid, t: int, lats: seq<real>, lons: seq<real>, rows: nat, cols: nat,
                            size: nat, threshold: int, mode: Mode): Result<seq<TrackModel.Center>>
    requires ValidChart(c, rows, cols) && IsGrid(lap, rows, cols) && |lats| == rows && |lons| == cols
    requires rows > 0 && cols > 0
  {
    if size % 2 != 1 then Err(ValueError)
    else if FilterFails(c.vals, rows, cols, size, threshold, mode) then Err(IndexError)
    else
      var cells := NonzeroCells(RemoveDupLaplace(Oriented(lap, rows, cols, mode), FilterGrid(c.vals, rows, cols, size, threshold, mode), rows, cols, 5));
      assert forall k :: 0 <= k < |cells| ==> cells[k] in cells;
      Ok(CentersOf(cells, t, c.vals, lats, lons))
  }

  /** A frame fails exactly for an even window, or a one-cell window with a
      non-zero threshold in minimum mode. */
  lemma RectFrameFailsExactly(c: Chart, lap: Grid, t: int, lats: seq<real>, lons: seq<real>, rows: nat, cols: nat,
                              size: nat, threshold: int, mode: Mode)
    requires ValidChart(c, rows, cols) && IsGrid(lap, rows, cols) && |lats| == rows && |lons| == cols
    requires rows > 0 && cols > 0
    ensures var r := RectFrameCenters(c, lap, t, lats, lons, rows, cols, size, threshold, mode);
      (r.Err? <==> size % 2 != 1 || (size == 1 && threshold != 0 && mode == Min)) &&
      (r.Err? ==> r.error == (if size % 2 != 1 then ValueError else IndexError))
  {
    if size % 2 == 1 {
      FilterFailsExactly(c.vals, rows, cols, size, threshold, mode);
    }
  }

  /** A cell is reported iff it lies outside the polar rows, passes the
      extremum test on the raw frame, and its Laplacian (negated in maximum
      mode) is non-zero and no cell of its wrapped 5 x 5 window of that
      Laplacian times the candidate flags exceeds it; the mask is not
      consulted. */
  lemma RectDetectedCells(c: Chart, lap: Grid, rows: nat, cols: nat, size: nat, threshold: int, mode: Mode, i: nat, j: nat)
    requires ValidChart(c, rows, cols) && IsGrid(lap, rows, cols) && i < rows && j < cols && size >= 1
    ensures var cand := FilterGrid(c.vals, rows, cols, size, threshold, mode);
      var o := Oriented(lap, rows, cols, mode);
      (i, j) in NonzeroCells(RemoveDupLaplace(o, cand, rows, cols, 5)) <==>
        !ZeroedRow(i, rows, size / 2) &&
        FilterCell(c.vals, rows, cols, i, j, size, threshold, mode) == Ok(true) &&
        o[i][j] != 0 &&
        forall di, dj :: 0 <= di < 5 && 0 <= dj < 5 ==>
          Neighbour(Product(o, cand, rows, cols), rows, cols, i, j, 5, di, dj) <= o[i][j]
  {
    var o := Oriented(lap, rows, cols, mode);
    FilterGridCell(c.vals, rows, cols, size, threshold, mode, i, j);
    RemoveDupKeeps(o, FilterGrid(c.vals, rows, cols, size, threshold, mode), rows, cols, 5, i, j);
    NonzeroCellAt(RemoveDupLaplace(o, FilterGrid(c.vals, rows, cols, size, threshold, mode), rows, cols, 5), i, j);
  }

  /** The maximum-mode filter output flags only cells that pass the test. */
  lemma FilterGridMax(g: Grid, rows: nat, cols: nat, size: nat, threshold: int)
    requires IsGrid(g, rows, cols) && rows > 0 && cols > 0 && size >= 1
    ensures MaxCandidates(g, FilterGrid(g, rows, cols, size, threshold, Max), rows, cols, size, threshold)
  {
    forall a, b | 0 <= a < rows && 0 <= b < cols
      ensures var cand := FilterGrid(g, rows, cols, size, threshold, Max);
        (cand[a][b] == 0 || cand[a][b] == 1) &&
        (cand[a][b] == 1 ==> FilterCell(g, rows, cols, a, b, size, threshold, Max) == Ok(true))
    {
      FilterGridCell(g, rows, cols, size, threshold, Max, a, b);
    }
  }

  /** As written (`_remove_dup_laplace` on the raw Laplacian), maximum mode
      reports no cell at all. */
  lemma RectMaxModeReportsNothing(c: Chart, lap: Grid, rows: nat, cols: nat, size: nat, threshold: int, i: nat, j: nat)
    requires ValidChart(c, rows, cols) && IsGrid(lap, rows, cols) && i < rows && j < cols
    requires size % 2 == 1 && size >= 3 && LaplacianAt(c.vals, lap, rows, cols, i, j)
    ensures (i, j) !in NonzeroCells(RemoveDupLaplace(lap, FilterGrid(c.vals, rows, cols, size, threshold, Max), rows, cols, 5))
  {
    var cand := FilterGrid(c.vals, rows, cols, size, threshold, Max);
    FilterGridMax(c.vals, rows, cols, size, threshold);
    MaxModeDropsAll(c.vals, lap, cand, rows, cols, size, threshold, i, j);
    NonzeroCellAt(RemoveDupLaplace(lap, cand, rows, cols, 5), i, j);
  }

  /** With the Laplacian negated in maximum mode, a candidate that strictly
      tops its stencil, and whose peak is the sharpest among the candidates
      of its 5 x 5 window, is reported. */
  lemma RectMaxModeKeepsPeak(c: Chart, lap: Grid, rows: nat, cols: nat, size: nat, threshold: int, i: nat, j: nat)
    requires ValidChart(c, rows, cols) && IsGrid(lap, rows, cols) && i < rows && j < cols && size >= 1
    requires LaplacianAt(c.vals, lap, rows, cols, i, j) && StrictPeak(c.vals, rows, cols, i, j)
    requires FilterGrid(c.vals, rows, cols, size, threshold, Max)[i][j] == 1
    requires forall di, dj :: 0 <= di < 5 && 0 <= dj < 5 ==>
      Neighbour(FilterGrid(c.vals, rows, cols, size, threshold, Max), rows, cols, i, j, 5, di, dj) == 0 ||
      lap[i][j] <= Neighbour(lap, rows, cols, i, j, 5, di, dj)
    ensures (i, j) in NonzeroCells(RemoveDupLaplace(Oriented(lap, rows, cols, Max), FilterGrid(c.vals, rows, cols, size, threshold, Max), rows, cols, 5))
  {
    var cand := FilterGrid(c.vals, rows, cols, size, threshold, Max);
    FilterGridMax(c.vals, rows, cols, size, threshold);
    OrientedKeepsPeak(c.vals, lap, cand, rows, cols, size, threshold, i, j);
    NonzeroCellAt(RemoveDupLaplace(Oriented(lap, rows, cols, Max), cand, rows, cols, 5), i, j);
  }

  /** On a frame with no masked cell the legacy detector and
      `SimpleDetector` report the same centres: filling and clearing
      change nothing there. */
  lemma UnmaskedFramesAgree(c: Chart, lap: Grid, t: int, lats: seq<real>, lons: seq<real>, rows: nat, cols: nat,
                            size: nat, threshold: int, mode: Mode, inf: int)
    requires ValidChart(c, rows, cols) && IsGrid(lap, rows, cols) && |lats| == rows && |lons| == cols
    requires rows > 0 && cols > 0
    requires SimpleDetection.Unmasked(c, rows, cols)
    ensures RectFrameCenters(c, lap, t, lats, lons, rows, cols, size, threshold, mode) ==
      SimpleDetection.FrameCenters(c, lap, t, lats, lons, rows, cols, size, threshold, mode, inf)
  {
    if size % 2 == 1 {
      var filled := SimpleDetection.Filled(c, rows, cols, mode, inf);
      var ext := FilterGrid(c.vals, rows, cols, size, threshold, mode);
      var o := Oriented(lap, rows, cols, mode);
      assert filled == c.vals by {
        SimpleDetection.UnmaskedStage(c, lap, rows, cols, size, threshold, mode, inf);
      }
      assert SimpleDetection.Survivors(c, lap, rows, cols, size, threshold, mode, inf) ==
             RemoveDupLaplace(o, ext, rows, cols, 5) by {
        SimpleDetection.UnmaskedStage(c, lap, rows, cols, size, threshold, mode, inf);
        var cand := SimpleDetection.Candidates(c, rows, cols, size, threshold, mode, inf);
        assert cand == ext by {
          forall i | 0 <= i < rows
            ensures cand[i] == ext[i]
          {
          }
        }
        RemoveDupExtFinite(o, cand, rows, cols, 5);
      }
    }
  }

  /** The centres `detect` reports for covered frame `it`. */
  function RectStepCenters(f: NcFile, trange: Option<(int, int)>, laps: seq<Grid>, it: nat,
                           size: nat, threshold: int, mode: Mode): Result<seq<TrackModel.Center>>
    requires ValidFile(f) && RangeInFile(f, trange) && !EmptyRange(trange) && it < NumSteps(f, trange)
    requires |laps| == |f.frames| && forall t :: 0 <= t < |laps| ==> IsGrid(laps[t], f.rows, f.cols)
  {
    CoveredFrame(f, trange, it);
    RectFrameCenters(f.frames[Base(trange) + it], laps[Base(trange) + it], f.times[Base(trange) + it],
                     f.lats, f.lons, f.rows, f.cols, size, threshold, mode)
  }

  lemma RectStepCentersUnfold(f: NcFile, trange: Option<(int, int)>, laps: seq<Grid>, it: nat,
                              size: nat, threshold: int, mode: Mode)
    requires ValidFile(f) && RangeInFile(f, trange) && !EmptyRange(trange) && it < NumSteps(f, trange)
    requires |laps| == |f.frames| && forall t :: 0 <= t < |laps| ==> IsGrid(laps[t], f.rows, f.cols)
    ensures 0 <= Base(trange) + it < |f.frames|
    ensures RectStepCenters(f, trange, laps, it, size, threshold, mode) ==
      RectFrameCenters(f.frames[Base(trange) + it], laps[Base(trange) + it], f.times[Base(trange) + it],
                       f.lats, f.lons, f.rows, f.cols, size, threshold, mode)
  {
    CoveredFrame(f, trange, it);
  }

  /** Every covered frame fails exactly when the first one does. */
  lemma RectStepFailsExactly(f: NcFile, trange: Option<(int, int)>, laps: seq<Grid>, it: nat,
                             size: nat, threshold: int, mode: Mode)
    requires ValidFile(f) && RangeInFile(f, trange) && !EmptyRange(trange) && it < NumSteps(f, trange)
    requires |laps| == |f.frames| && forall t :: 0 <= t < |laps| ==> IsGrid(laps[t], f.rows, f.cols)
    ensures var r := RectStepCenters(f, trange, laps, it, size, threshold, mode);
      (r.Err? <==> size % 2 != 1 || (size == 1 && threshold != 0 && mode == Min)) &&
      (r.Err? ==> r.error == (if size % 2 != 1 then ValueError else IndexError))
  {
    CoveredFrame(f, trange, it);
    RectStepCentersUnfold(f, trange, laps, it, size, threshold, mode);
    RectFrameFailsExactly(f.frames[Base(trange) + it], laps[Base(trange) + it], f.times[Base(trange) + it],
                          f.lats, f.lons, f.rows, f.cols, size, threshold, mode);
  }

  /** The lists reported so far are those of the first covered frames. */
  predicate RectReported(f: NcFile, trange: Option<(int, int)>, laps: seq<Grid>, centers: seq<seq<TrackModel.Center>>,
                         size: nat, threshold: int, mode: Mode)
    requires ValidFile(f) && RangeInFile(f, trange) && !EmptyRange(trange) && |centers| <= NumSteps(f, trange)
    requires |laps| == |f.frames| && forall t :: 0 <= t < |laps| ==> IsGrid(laps[t], f.rows, f.cols)
  {
    forall k :: 0 <= k < |centers| ==> RectStepCenters(f, trange, laps, k, size, threshold, mode) == Ok(centers[k])
  }

  lemma RectReportedSnoc(f: NcFile, trange: Option<(int, int)>, laps: seq<Grid>, centers: seq<seq<TrackModel.Center>>,
                         cs: seq<TrackModel.Center>, size: nat, threshold: int, mode: Mode)
    requires ValidFile(f) && RangeInFile(f, trange) && !EmptyRange(trange) && |centers| < NumSteps(f, trange)
    requires |laps| == |f.frames| && forall t :: 0 <= t < |laps| ==> IsGrid(laps[t], f.rows, f.cols)
    requires RectReported(f, trange, laps, centers, size, threshold, mode)
    requires RectStepCenters(f, trange, laps, |centers|, size, threshold, mode) == Ok(cs)
    ensures RectReported(f, trange, laps, centers + [cs], size, threshold, mode)
  {
    var centers' := centers + [cs];
    forall k | 0 <= k < |centers'|
      ensures RectStepCenters(f, trange, laps, k, size, threshold, mode) == Ok(centers'[k])
    {
      if k < |centers| {
        assert centers'[k] == centers[k];
      }
    }
  }

  class RectGrid {
    const file: NcFile
    const trange: Option<(int, int)>
    /** `_open_file`. */
    var isOpen: bool

    constructor(file: NcFile, trange: Option<(int, int)>)
      ensures this.file == file && this.trange == trange && !isOpen
    {
      this.file := file;
      this.trange := trange;
      isOpen := false;
    }

    /** `get_var`: the same checks and reads as `SimpleDetector`; the file
        is opened once the checks pass. */
    method GetVar(chart: ChartArg) returns (r: Result<Option<VarData>>)
      modifies this
      ensures r == GetVarSpec(file, trange, chart)
      ensures isOpen == (old(isOpen) || OpensFile(trange, chart))
    {
      var check := GetVarCheck(trange, chart);
      if check.Err? {
        return Err(check.error);
      }
      if check.value.None? {
        return Ok(None);
      }
      isOpen := true;
      var d := Read(file, check.value.value);
      if d.Err? {
        return Err(d.error);
      }
      return Ok(Some(d.value));
    }

    /** `split`: TypeError for a non-integer count, RuntimeError once the
        file is open, otherwise one fresh, unopened grid per range. */
    method Split(num: PyValue) returns (r: Result<seq<RectGrid>>)
      ensures num.PyOther? ==> r == Err(TypeError)
      ensures num.PyInt? && isOpen ==> r == Err(RuntimeError)
      ensures num.PyInt? && !isOpen ==>
        var s := SplitCount(SplitSpan(file, trange).0, SplitSpan(file, trange).1, num.i);
        (r.Err? <==> s.Err?) && (r.Err? ==> r.error == s.error) &&
        (r.Ok? ==>
          |r.value| == |s.value| &&
          forall k :: 0 <= k < |r.value| ==>
            fresh(r.value[k]) && r.value[k].file == file && r.value[k].trange == Some(s.value[k]) && !r.value[k].isOpen)
    {
      if num.PyOther? {
        return Err(TypeError);
      }
      if isOpen {
        return Err(RuntimeError);
      }
      var (tstart, len) := SplitSpan(file, trange);
      var s := SplitCount(tstart, len, num.i);
      if s.Err? {
        return Err(s.error);
      }
      var ranges := s.value;
      var parts: seq<RectGrid> := [];
      for k := 0 to |ranges|
        invariant |parts| == k
        invariant forall k' :: 0 <= k' < k ==>
          fresh(parts[k']) && parts[k'].file == file && parts[k'].trange == Some(ranges[k']) && !parts[k'].isOpen
      {
        var g := new RectGrid(file, Some(ranges[k]));
        parts := parts + [g];
      }
      return Ok(parts);
    }

    /** One frame of `detect`: filter the raw frame, remove duplicates,
        list the centres. */
    static method ProcessFrame(c: Chart, lap: Grid, t: int, lats: seq<real>, lons: seq<real>, rows: nat, cols: nat,
                               size: nat, threshold: int, mode: Mode)
      returns (r: Result<seq<TrackModel.Center>>)
      requires ValidChart(c, rows, cols) && IsGrid(lap, rows, cols) && |lats| == rows && |lons| == cols
      requires rows > 0 && cols > 0
      ensures r == RectFrameCenters(c, lap, t, lats, lons, rows, cols, size, threshold, mode)
    {
      var ext := ExtremaFilter(c.vals, rows, cols, size, threshold, mode);
      if ext.Err? {
        return Err(ext.error);
      }
      var cand := Contents(ext.value);
      assert cand == FilterGrid(c.vals, rows, cols, size, threshold, mode) by {
        var expected := FilterGrid(c.vals, rows, cols, size, threshold, mode);
        forall i | 0 <= i < rows
          ensures cand[i] == expected[i]
        {
        }
      }
      var cells := NonzeroCells(RemoveDupLaplace(Oriented(lap, rows, cols, mode), cand, rows, cols, 5));
      assert forall k :: 0 <= k < |cells| ==> cells[k] in cells;
      return Ok(CentersOf(cells, t, c.vals, lats, lons));
    }

    /** The buffered chunk holds the frames from `start` up to the next
        `chartBuffer` frames or the last covered frame. */
    predicate ChunkFrom(chunk: Option<VarData>, start: nat, chartBuffer: nat)
      requires ValidFile(file) && RangeInFile(file, trange) && !EmptyRange(trange) && start < NumSteps(file, trange)
    {
      CoveredFrames(file, trange);
      chunk == Some(Frames(file.frames[Base(trange) + start .. Base(trange) + Util.Min(start + chartBuffer, NumSteps(file, trange))]))
    }

    /** A chunk started at `start` holds frame `it` at offset `it - start`. */
    lemma ChunkFrame(chunk: Option<VarData>, start: nat, chartBuffer: nat, it: nat)
      requires ValidFile(file) && RangeInFile(file, trange) && !EmptyRange(trange) && it < NumSteps(file, trange)
      requires start <= it < start + chartBuffer && ChunkFrom(chunk, start, chartBuffer)
      ensures 0 <= Base(trange) + it < |file.frames|
      ensures chunk.Some? && chunk.value.Frames? && it - start < |chunk.value.charts|
      ensures chunk.value.charts[it - start] == file.frames[Base(trange) + it]
    {
      CoveredFrames(file, trange);
    }

    /** The chunk buffer at iteration `it`: reloaded with the next
        `chartBuffer` frames when `it` is a multiple of `chartBuffer`. */
    method NextChunk(it: nat, chunk: Option<VarData>, ghost start: nat, chartBuffer: nat)
      returns (chunk': Option<VarData>, ghost start': nat)
      requires ValidFile(file) && RangeInFile(file, trange) && !EmptyRange(trange) && chartBuffer > 0
      requires it < NumSteps(file, trange) && isOpen
      requires it > 0 ==> start < it <= start + chartBuffer && start % chartBuffer == 0 && ChunkFrom(chunk, start, chartBuffer)
      modifies this
      ensures isOpen
      ensures start' <= it < start' + chartBuffer && start' % chartBuffer == 0 && ChunkFrom(chunk', start', chartBuffer)
      ensures it % chartBuffer == it - start'
    {
      chunk', start' := chunk, start;
      if it % chartBuffer == 0 {
        chunk' := LoadChunk(it, chartBuffer);
        start' := it;
      } else {
        ChunkContinues(it, start, chartBuffer);
      }
    }

    /** `self.get_var(chart=(it, min(it + chartBuffer, num_steps)))`. */
    method LoadChunk(it: nat, chartBuffer: nat) returns (chunk: Option<VarData>)
      requires ValidFile(file) && RangeInFile(file, trange) && !EmptyRange(trange) && chartBuffer > 0
      requires it < NumSteps(file, trange)
      modifies this
      ensures isOpen
      ensures ChunkFrom(chunk, it, chartBuffer)
    {
      var b := Util.Min(it + chartBuffer, NumSteps(file, trange));
      GetVarChunk(file, trange, it, b);
      var got := GetVar(TupleChart([PyInt(it), PyInt(b)]));
      chunk := got.value;
    }

    /** One pass of the `detect` loop: take frame `it` from the chunk at
        offset `it % chartBuffer` and detect. */
    method DetectStep(laps: seq<Grid>, it: nat, chunk: Option<VarData>, ghost start: nat,
                      size: nat, threshold: int, chartBuffer: nat, mode: Mode)
      returns (chunk': Option<VarData>, ghost start': nat, res: Result<seq<TrackModel.Center>>)
      requires ValidFile(file) && RangeInFile(file, trange) && !EmptyRange(trange) && chartBuffer > 0
      requires |laps| == |file.frames| && forall t :: 0 <= t < |laps| ==> IsGrid(laps[t], file.rows, file.cols)
      requires it < NumSteps(file, trange) && isOpen
      requires it > 0 ==> start < it <= start + chartBuffer && start % chartBuffer == 0 && ChunkFrom(chunk, start, chartBuffer)
      modifies this
      ensures isOpen
      ensures start' <= it < start' + chartBuffer && start' % chartBuffer == 0 && ChunkFrom(chunk', start', chartBuffer)
      ensures res == RectStepCenters(file, trange, laps, it, size, threshold, mode)
    {
      chunk', start' := NextChunk(it, chunk, start, chartBuffer);
      var ib := it % chartBuffer;
      ChunkFrame(chunk', start', chartBuffer, it);
      var frame := chunk'.value.charts[ib];
      RectStepCentersUnfold(file, trange, laps, it, size, threshold, mode);
      res := ProcessFrame(frame, laps[Base(trange) + it], file.times[Base(trange) + it], file.lats, file.lons,
                          file.rows, file.cols, size, threshold, mode);
    }

    /** `detect`: one centre list per covered frame, read in chunks of
        `chartBuffer` frames, as if each frame had been read on its own. */
    method Detect(laps: seq<Grid>, size: nat, threshold: int, chartBuffer: nat, mode: Mode)
      returns (r: Result<seq<seq<TrackModel.Center>>>)
      requires ValidFile(file) && RangeInFile(file, trange) && chartBuffer > 0
      requires |laps| == |file.frames| && forall t :: 0 <= t < |laps| ==> IsGrid(laps[t], file.rows, file.cols)
      modifies this
      ensures isOpen == (old(isOpen) || !EmptyRange(trange))
      ensures EmptyRange(trange) ==> r == Ok([])
      ensures r.Err? <==> NumSteps(file, trange) > 0 && (size % 2 != 1 || (size == 1 && threshold != 0 && mode == Min))
      ensures r.Err? ==> r.error == (if size % 2 != 1 then ValueError else IndexError)
      ensures r.Ok? && !EmptyRange(trange) ==>
        |r.value| == NumSteps(file, trange) &&
        forall it :: 0 <= it < |r.value| ==> RectStepCenters(file, trange, laps, it, size, threshold, mode) == Ok(r.value[it])
    {
      if EmptyRange(trange) {
        return Ok([]);
      }
      isOpen := true;
      var n := NumSteps(file, trange);
      var centers: seq<seq<TrackModel.Center>> := [];
      var chunk: Option<VarData> := None;
      ghost var start: nat := 0;
      var it := 0;
      while it < n
        invariant 0 <= it <= n && isOpen
        invariant |centers| == it
        invariant RectReported(file, trange, laps, centers, size, threshold, mode)
        invariant it > 0 ==> start < it <= start + chartBuffer && start % chartBuffer == 0 && ChunkFrom(chunk, start, chartBuffer)
      {
        var res;
        chunk, start, res := DetectStep(laps, it, chunk, start, size, threshold, chartBuffer, mode);
        if res.Err? {
          RectStepFailsExactly(file, trange, laps, it, size, threshold, mode);
          return Err(res.error);
        }
        RectReportedSnoc(file, trange, laps, centers, res.value, size, threshold, mode);
        centers := centers + [res.value];
        it := it + 1;
      }
      if n > 0 {
        RectStepFailsExactly(file, trange, laps, 0, size, threshold, mode);
      }
      return Ok(centers);
    }
  }
}
