/** What the gridded detectors read and what they report: the file's
    frames, the reads `get_var` performs, the listing of the cells a
    detection pass leaves non-zero, and the centres built from them. */
module Detection {
  import opened Util
  import opened Grids
  import opened Extrema
  import opened TimeRanges
  import TrackModel

  /** One frame of the data variable with its mask (true = masked). */
  datatype Chart = Chart(vals: Grid, mask: seq<seq<bool>>)

  predicate ValidChart(c: Chart, rows: nat, cols: nat)
  {
    IsGrid(c.vals, rows, cols) && IsGrid(c.mask, rows, cols)
  }

  /** The data file: the variable's frames along the time axis, the time
      values, and the latitude and longitude axes. */
  datatype NcFile = NcFile(frames: seq<Chart>, times: seq<int>, lats: seq<real>, lons: seq<real>, rows: nat, cols: nat)

  predicate ValidFile(f: NcFile)
  {
    f.rows > 0 && f.cols > 0 && |f.times| == |f.frames| && |f.lats| == f.rows && |f.lons| == f.cols &&
    forall t :: 0 <= t < |f.frames| ==> ValidChart(f.frames[t], f.rows, f.cols)
  }

  /** What a read returns: one frame for an index, frames for a slice. */
  datatype VarData = OneFrame(chart: Chart) | Frames(charts: seq<Chart>)

  /** Reading a request from the file, with Python index and slice rules. */
  function Read(f: NcFile, req: Request): (r: Result<VarData>)
    ensures r.Err? ==> req.Index? && r.error == IndexError
  {
    match req
    case Index(i) =>
      (match TrackModel.PyIndex(i, |f.frames|)
       case Some(k) => Ok(OneFrame(f.frames[k]))
       case None => Err(IndexError))
    case Slice(lo, hi) => Ok(Frames(PySlice(f.frames, lo, hi)))
    case Everything => Ok(Frames(f.frames))
  }

  /** `get_var`: the checks, then the read. */
  function GetVarSpec(f: NcFile, trange: Option<(int, int)>, chart: ChartArg): Result<Option<VarData>>
  {
    match GetVarCheck(trange, chart)
    case Err(e) => Err(e)
    case Ok(None) => Ok(None)
    case Ok(Some(req)) =>
      match Read(f, req)
      case Err(e) => Err(e)
      case Ok(d) => Ok(Some(d))
  }

  /** Whether `get_var` gets past its checks and opens the file. */
  predicate OpensFile(trange: Option<(int, int)>, chart: ChartArg)
  {
    GetVarCheck(trange, chart).Ok? && GetVarCheck(trange, chart).value.Some?
  }

  /** The time range starts at or after the file's first frame; it may
      reach past the last one, and then the reads are clipped. */
  predicate RangeInFile(f: NcFile, trange: Option<(int, int)>)
  {
    trange.None? || EmptyRange(trange) || 0 <= trange.value.0
  }

  /** Number of frames the detector covers, and the file index of its first. */
  function NumSteps(f: NcFile, trange: Option<(int, int)>): nat
  {
    if trange.None? then |f.frames|
    else if EmptyRange(trange) then 0
    else |PySlice(f.times, trange.value.0, trange.value.1)|
  }

  function Base(trange: Option<(int, int)>): int
  {
    if trange.None? then 0 else trange.value.0
  }

  /** The covered frames are the file's frames from `Base` up to the end
      of the range or of the file, whichever comes first; they lie inside
      the file, and `time[trange[0]:trange[1]]` is their times. */
  lemma CoveredFrames(f: NcFile, trange: Option<(int, int)>)
    requires ValidFile(f) && RangeInFile(f, trange) && !EmptyRange(trange)
    ensures 0 <= Base(trange)
    ensures trange.Some? ==>
              NumSteps(f, trange) ==
                (if trange.value.1 <= |f.frames| then trange.value.1 - trange.value.0
                 else if trange.value.0 < |f.frames| then |f.frames| - trange.value.0
                 else 0)
    ensures NumSteps(f, trange) > 0 ==> Base(trange) + NumSteps(f, trange) <= |f.frames|
    ensures trange.Some? && NumSteps(f, trange) > 0 ==>
      PySlice(f.times, trange.value.0, trange.value.1) == f.times[Base(trange) .. Base(trange) + NumSteps(f, trange)]
  {
  }

  /** Covered frame `it` is a frame of the file. */
  lemma CoveredFrame(f: NcFile, trange: Option<(int, int)>, it: nat)
    requires ValidFile(f) && RangeInFile(f, trange) && !EmptyRange(trange) && it < NumSteps(f, trange)
    ensures 0 <= Base(trange) + it < |f.frames|
  {
    CoveredFrames(f, trange);
  }

  /** A range that reaches past the file, such as `-n 400` on a file of 365
      frames, covers the frames the file has. */
  lemma RangePastEndClipped(f: NcFile, n: int)
    requires ValidFile(f) && 0 < |f.frames| <= n
    ensures RangeInFile(f, Some((0, n))) && NumSteps(f, Some((0, n))) == |f.frames|
  {
    CoveredFrames(f, Some((0, n)));
  }

  /** The time span `split` partitions: the time range, or the whole time
      axis of the file. */
  function SplitSpan(f: NcFile, trange: Option<(int, int)>): (int, int)
  {
    if trange.Some? then (trange.value.0, trange.value.1 - trange.value.0) else (0, |f.frames|)
  }

  /** Within a chunk that starts at a multiple of the buffer length, frame
      `it` sits at offset `it % buffer`. */
  lemma ChunkOffset(it: nat, start: nat, buffer: nat)
    requires buffer > 0 && start % buffer == 0 && start <= it < start + buffer
    ensures it % buffer == it - start
  {
    Util.ModUnique(it, buffer, start / buffer, it - start);
  }

  /** Frame `it` belongs to the chunk started at the last multiple of the
      buffer length at or before it. */
  lemma ChunkContinues(it: nat, start: nat, buffer: nat)
    requires buffer > 0 && start % buffer == 0 && start < it <= start + buffer && it % buffer != 0
    ensures it < start + buffer && it % buffer == it - start
  {
    var q := start / buffer;
    assert start == q * buffer;
    if it == start + buffer {
      Util.ModUnique(it, buffer, q + 1, 0);
    }
    Util.ModUnique(it, buffer, q, it - start);
  }

  /** A chunk request `(a, b)` inside the covered frames reads exactly the
      file frames `Base + a .. Base + b`. */
  lemma GetVarChunk(f: NcFile, trange: Option<(int, int)>, a: nat, b: nat)
    requires ValidFile(f) && RangeInFile(f, trange) && a < b <= NumSteps(f, trange)
    ensures 0 <= Base(trange) + a && Base(trange) + b <= |f.frames|
    ensures OpensFile(trange, TupleChart([PyInt(a), PyInt(b)]))
    ensures GetVarSpec(f, trange, TupleChart([PyInt(a), PyInt(b)])) ==
      Ok(Some(Frames(f.frames[Base(trange) + a .. Base(trange) + b])))
  {
    if trange.Some? {
      GetVarAcceptsInside(trange.value.0, trange.value.1, a, b);
    }
  }

  /** Cells (i, j) with j < |row| where the row is non-zero, left to right. */
  function RowCells(row: seq<int>, i: nat): (cells: seq<(nat, nat)>)
    ensures forall c :: c in cells <==> c.0 == i && c.1 < |row| && row[c.1] != 0
    ensures forall a, b :: 0 <= a < b < |cells| ==> cells[a].1 < cells[b].1
  {
    if row == [] then []
    else
      var prev := RowCells(row[..|row| - 1], i);
      assert forall c :: c in prev ==> c.1 < |row| - 1;
      prev + (if row[|row| - 1] != 0 then [(i, |row| - 1)] else [])
  }

  /** Row-major order. */
  predicate Before(a: (nat, nat), b: (nat, nat))
  {
    a.0 < b.0 || (a.0 == b.0 && a.1 < b.1)
  }

  /** `np.transpose(grid.nonzero())`: the non-zero cells in row-major order. */
  function NonzeroCells(g: Grid): (cells: seq<(nat, nat)>)
    ensures forall c :: c in cells <==> c.0 < |g| && c.1 < |g[c.0]| && g[c.0][c.1] != 0
    ensures forall a, b :: 0 <= a < b < |cells| ==> Before(cells[a], cells[b])
  {
    if g == [] then []
    else
      var prev := NonzeroCells(g[..|g| - 1]);
      var last := RowCells(g[|g| - 1], |g| - 1);
      assert forall c :: c in prev ==> c.0 < |g| - 1;
      assert forall k :: 0 <= k < |last| ==> last[k] in last;
      assert forall k :: 0 <= k < |prev| ==> prev[k] in prev;
      prev + last
  }

  lemma NonzeroCellAt(g: Grid, i: nat, j: nat)
    requires i < |g| && j < |g[i]|
    ensures (i, j) in NonzeroCells(g) <==> g[i][j] != 0
  {
  }

  /** The centres of the listed cells at time t: position from the axes,
      value from the frame. */
  function CentersOf(cells: seq<(nat, nat)>, t: int, vals: Grid, lats: seq<real>, lons: seq<real>): (cs: seq<TrackModel.Center>)
    requires forall k :: 0 <= k < |cells| ==>
      cells[k].0 < |vals| && cells[k].0 < |lats| && cells[k].1 < |vals[cells[k].0]| && cells[k].1 < |lons|
    ensures |cs| == |cells|
  {
    seq(|cells|, k requires 0 <= k < |cells| =>
      TrackModel.Center(t, lats[cells[k].0], lons[cells[k].1], vals[cells[k].0][cells[k].1]))
  }

  /** The extremum filter's output as a grid: the test at each cell, with
      the polar rows cleared. */
  function FilterGrid(input: Grid, rows: nat, cols: nat, size: nat, threshold: int, mode: Mode): (g: Grid)
    requires IsGrid(input, rows, cols) && rows > 0 && cols > 0 && size >= 1
    ensures IsGrid(g, rows, cols)
  {
    seq(rows, i requires 0 <= i < rows => seq(cols, j requires 0 <= j < cols =>
      Bit(!ZeroedRow(i, rows, size / 2) && FilterCell(input, rows, cols, i, j, size, threshold, mode) == Ok(true))))
  }

  lemma FilterGridCell(input: Grid, rows: nat, cols: nat, size: nat, threshold: int, mode: Mode, i: nat, j: nat)
    requires IsGrid(input, rows, cols) && i < rows && j < cols && size >= 1
    ensures FilterGrid(input, rows, cols, size, threshold, mode)[i][j] ==
      Bit(!ZeroedRow(i, rows, size / 2) && FilterCell(input, rows, cols, i, j, size, threshold, mode) == Ok(true))
  {
  }

  /** The contents of a two-dimensional array. */
  function Contents<T>(a: array2<T>): (g: seq<seq<T>>)
    reads a
    ensures IsGrid(g, a.Length0, a.Length1)
  {
    seq(a.Length0, i requires 0 <= i < a.Length0 reads a =>
      seq(a.Length1, j requires 0 <= j < a.Length1 reads a => a[i, j]))
  }

  /** `extrema[chart.mask] = 0`. */
  method ClearMasked(a: array2<int>, mask: seq<seq<bool>>)
    requires IsGrid(mask, a.Length0, a.Length1)
    modifies a
    ensures forall i, j :: 0 <= i < a.Length0 && 0 <= j < a.Length1 ==>
      a[i, j] == (if mask[i][j] then 0 else old(a[i, j]))
  {
    var i := 0;
    while i < a.Length0
      invariant 0 <= i <= a.Length0
      invariant forall i', j :: 0 <= i' < a.Length0 && 0 <= j < a.Length1 ==>
        a[i', j] == (if i' < i && mask[i'][j] then 0 else old(a[i', j]))
    {
      var j := 0;
      while j < a.Length1
        invariant 0 <= j <= a.Length1
        invariant forall i', j' :: 0 <= i' < a.Length0 && 0 <= j' < a.Length1 ==>
          a[i', j'] == (if (i' < i || (i' == i && j' < j)) && mask[i'][j'] then 0 else old(a[i', j']))
      {
        if mask[i][j] {
          a[i, j] := 0;
        }
        j := j + 1;
      }
      i := i + 1;
    }
  }
}
