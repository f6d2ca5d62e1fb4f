/** The per-frame detection filters shared by the rectangular-grid
    detectors: the extremum test applied to every neighbourhood, the
    clearing of the polar rows, and the Laplacian-based removal of
    duplicate centres. The Laplacian itself (scipy's `laplace` with wrap
    boundaries) is supplied by the caller. */
module Extrema {
  import opened Util
  import opened Grids

  /** The window's own value. */
  function Origin(buf: seq<int>, size: nat): int
    requires size >= 1 && |buf| == size * size
  {
    buf[OriginIndex(size)]
  }

  predicate IsWindowMin(buf: seq<int>, c: int)
  {
    forall t :: 0 <= t < |buf| ==> c <= buf[t]
  }

  predicate IsWindowMax(buf: seq<int>, c: int)
  {
    forall t :: 0 <= t < |buf| ==> buf[t] <= c
  }

  /** `_local_extrema_func`: is the window's centre an extremum? With a
      zero threshold it is one when it equals the window minimum (maximum).
      Otherwise a minimum also needs its ninth-smallest window value more
      than `threshold` above it (reading `sorted(buffer)[8]`, an
      IndexError for windows of fewer than nine cells), and a maximum
      needs its smallest window value more than `threshold` below it. A
      centre equal to the window minimum is never a maximum. */
  function ExtremaFunc(buf: seq<int>, size: nat, threshold: int, mode: Mode): (r: Result<bool>)
    requires size >= 1 && |buf| == size * size
    ensures r.Err? ==> r.error == IndexError
  {
    var c := Origin(buf, size);
    if threshold == 0 then
      Ok(if mode == Min then c == SeqMin(buf) else c == SeqMax(buf))
    else if c == SeqMin(buf) then
      if mode == Min then
        if |buf| <= 8 then Err(IndexError) else Ok(Sort(buf)[8] - c > threshold)
      else Ok(false)
    else if c == SeqMax(buf) then
      if mode == Max then Ok(Sort(buf)[0] - c < -threshold) else Ok(false)
    else Ok(false)
  }

  /** The centre equals the window minimum (maximum) iff no window value
      lies below (above) it. */
  lemma OriginIsMin(buf: seq<int>, size: nat)
    requires size >= 1 && |buf| == size * size
    ensures Origin(buf, size) == SeqMin(buf) <==> IsWindowMin(buf, Origin(buf, size))
    ensures Origin(buf, size) == SeqMax(buf) <==> IsWindowMax(buf, Origin(buf, size))
  {
    assert buf[OriginIndex(size)] == Origin(buf, size);
  }

  /** The test raises exactly for a thresholded minimum test whose centre
      is the minimum of a window of fewer than nine cells. */
  lemma ExtremaFuncFails(buf: seq<int>, size: nat, threshold: int, mode: Mode)
    requires size >= 1 && |buf| == size * size
    ensures ExtremaFunc(buf, size, threshold, mode).Err? <==>
      threshold != 0 && mode == Min && IsWindowMin(buf, Origin(buf, size)) && |buf| <= 8
  {
    OriginIsMin(buf, size);
  }

  /** With a zero threshold a centre is an extremum exactly when no window
      value lies beyond it. */
  lemma ExtremaNoThreshold(buf: seq<int>, size: nat, mode: Mode)
    requires size >= 1 && |buf| == size * size
    ensures ExtremaFunc(buf, size, 0, mode) == Ok(
      if mode == Min then IsWindowMin(buf, Origin(buf, size)) else IsWindowMax(buf, Origin(buf, size)))
  {
    OriginIsMin(buf, size);
  }

  /** Thresholded minimum: the centre is the window minimum and at most
      eight window values (the centre among them) lie within `threshold`
      of it. */
  lemma ExtremaMinThreshold(buf: seq<int>, size: nat, threshold: int)
    requires size >= 1 && |buf| == size * size && |buf| >= 9 && threshold != 0
    ensures ExtremaFunc(buf, size, threshold, Min) == Ok(
      IsWindowMin(buf, Origin(buf, size)) && CountWithin(buf, Origin(buf, size), threshold) <= 8)
  {
    OriginIsMin(buf, size);
    MarginAbove(buf, 8, Origin(buf, size), threshold);
  }

  /** Thresholded maximum: the centre is the window maximum, not also its
      minimum, and some window value lies more than `threshold` below it. */
  lemma ExtremaMaxThreshold(buf: seq<int>, size: nat, threshold: int)
    requires size >= 1 && |buf| == size * size && threshold != 0
    ensures ExtremaFunc(buf, size, threshold, Max) == Ok(
      IsWindowMax(buf, Origin(buf, size)) && !IsWindowMin(buf, Origin(buf, size)) &&
      exists t :: 0 <= t < |buf| && buf[t] < Origin(buf, size) - threshold)
  {
    OriginIsMin(buf, size);
    SortedFirstBelow(buf, Origin(buf, size) - threshold - 1);
    assert ExtremaFunc(buf, size, threshold, Max) == Ok(
      Origin(buf, size) == SeqMax(buf) && Origin(buf, size) != SeqMin(buf) && Sort(buf)[0] - Origin(buf, size) < -threshold);
  }

  /** The smallest entry is at most x iff some entry is. */
  lemma SortedFirstBelow(buf: seq<int>, x: int)
    requires |buf| > 0
    ensures Sort(buf)[0] <= x <==> exists t :: 0 <= t < |buf| && buf[t] <= x
  {
    OrderStatistic(buf, 0, x);
    CountLeSome(buf, x);
  }

  /** `_local_extrema_func` of the masked-array detector: a masked centre is
      never an extremum; otherwise the test above. */
  function MaskedExtremaFunc(buf: seq<int>, centerMasked: bool, size: nat, threshold: int, mode: Mode): (r: Result<bool>)
    requires size >= 1 && |buf| == size * size
    ensures r == Ok(true) ==> !centerMasked
    ensures !centerMasked ==> r == ExtremaFunc(buf, size, threshold, mode)
  {
    if centerMasked then Ok(false) else ExtremaFunc(buf, size, threshold, mode)
  }

  /** The extremum test at cell (i, j). */
  function FilterCell(g: Grid, rows: nat, cols: nat, i: int, j: int, size: nat, threshold: int, mode: Mode): Result<bool>
    requires IsGrid(g, rows, cols) && rows > 0 && cols > 0 && size >= 1
  {
    ExtremaFunc(Window(g, rows, cols, i, j, size), size, threshold, mode)
  }

  /** Some cell's test raises. */
  predicate FilterFails(g: Grid, rows: nat, cols: nat, size: nat, threshold: int, mode: Mode)
    requires IsGrid(g, rows, cols) && rows > 0 && cols > 0 && size >= 1
  {
    exists i, j :: 0 <= i < rows && 0 <= j < cols && FilterCell(g, rows, cols, i, j, size, threshold, mode).Err?
  }

  /** The test raises somewhere exactly for one-cell windows with a
      non-zero threshold in minimum mode. */
  lemma FilterFailsExactly(g: Grid, rows: nat, cols: nat, size: nat, threshold: int, mode: Mode)
    requires IsGrid(g, rows, cols) && rows > 0 && cols > 0 && size % 2 == 1
    ensures FilterFails(g, rows, cols, size, threshold, mode) <==> size == 1 && threshold != 0 && mode == Min
  {
    if size == 1 && threshold != 0 && mode == Min {
      var buf := Window(g, rows, cols, 0, 0, size);
      ExtremaFuncFails(buf, size, threshold, mode);
      assert IsWindowMin(buf, Origin(buf, size));
      assert FilterCell(g, rows, cols, 0, 0, size, threshold, mode).Err?;
    }
    if size >= 3 {
      assert size * size >= 9 by {
        assert size * size >= 3 * size;
      }
      forall i, j | 0 <= i < rows && 0 <= j < cols
        ensures FilterCell(g, rows, cols, i, j, size, threshold, mode).Ok?
      {
        ExtremaFuncFails(Window(g, rows, cols, i, j, size), size, threshold, mode);
      }
    }
    if threshold == 0 || mode == Max {
      forall i, j | 0 <= i < rows && 0 <= j < cols
        ensures FilterCell(g, rows, cols, i, j, size, threshold, mode).Ok?
      {
        ExtremaFuncFails(Window(g, rows, cols, i, j, size), size, threshold, mode);
      }
    }
  }

  function Bit(b: bool): int
  {
    if b then 1 else 0
  }

  /** Rows cleared by `output[:h, :] = 0` followed by `output[-h:, :] = 0`;
      for h == 0 the second slice is the whole array. */
  predicate ZeroedRow(i: int, rows: nat, h: nat)
  {
    i < h || h == 0 || i >= rows - h
  }

  /** Start of the Python slice `[-h:]` over `rows` rows. */
  function TailStart(rows: nat, h: nat): nat
  {
    if h == 0 || h >= rows then 0 else rows - h
  }

  /** Slice assignment `a[lo:hi, :] = 0`. */
  method ZeroRows(a: array2<int>, lo: nat, hi: nat)
    requires hi <= a.Length0
    modifies a
    ensures forall i, j :: 0 <= i < a.Length0 && 0 <= j < a.Length1 ==>
      a[i, j] == (if lo <= i < hi then 0 else old(a[i, j]))
  {
    var i := lo;
    while i < hi
      invariant lo <= i && (i <= hi || i == lo)
      invariant forall i', j :: 0 <= i' < a.Length0 && 0 <= j < a.Length1 ==>
        a[i', j] == (if lo <= i' < i then 0 else old(a[i', j]))
    {
      var j := 0;
      while j < a.Length1
        invariant 0 <= j <= a.Length1
        invariant forall i', j' :: 0 <= i' < a.Length0 && 0 <= j' < a.Length1 ==>
          a[i', j'] == (if lo <= i' < i || (i' == i && j' < j) then 0 else old(a[i', j']))
      {
        a[i, j] := 0;
        j := j + 1;
      }
      i := i + 1;
    }
  }

  /** `generic_filter` with the extremum test: one pass over the cells in
      row-major order, stopping at the first cell whose test raises. */
  method FilterCells(input: Grid, rows: nat, cols: nat, size: nat, threshold: int, mode: Mode)
    returns (r: Result<array2<int>>)
    requires IsGrid(input, rows, cols) && rows > 0 && cols > 0 && size >= 1
    ensures r.Err? <==> FilterFails(input, rows, cols, size, threshold, mode)
    ensures r.Err? ==> r.error == IndexError
    ensures r.Ok? ==> fresh(r.value) && r.value.Length0 == rows && r.value.Length1 == cols
    ensures r.Ok? ==> forall i, j :: 0 <= i < rows && 0 <= j < cols ==>
      r.value[i, j] == Bit(FilterCell(input, rows, cols, i, j, size, threshold, mode) == Ok(true))
  {
    var output := new int[rows, cols];
    var i := 0;
    while i < rows
      invariant 0 <= i <= rows
      invariant forall i', j' :: 0 <= i' < i && 0 <= j' < cols ==>
        FilterCell(input, rows, cols, i', j', size, threshold, mode).Ok? &&
        output[i', j'] == Bit(FilterCell(input, rows, cols, i', j', size, threshold, mode) == Ok(true))
    {
      var ok := FilterRow(input, rows, cols, size, threshold, mode, output, i);
      if !ok {
        return Err(IndexError);
      }
      i := i + 1;
    }
    return Ok(output);
  }

  /** Row i of the pass: true when no cell of the row raises, with the
      row's results written; false at the first cell that raises. */
  method FilterRow(input: Grid, rows: nat, cols: nat, size: nat, threshold: int, mode: Mode, output: array2<int>, i: nat)
    returns (ok: bool)
    requires IsGrid(input, rows, cols) && rows > 0 && cols > 0 && size >= 1
    requires output.Length0 == rows && output.Length1 == cols && i < rows
    modifies output
    ensures ok ==> forall j :: 0 <= j < cols ==>
      FilterCell(input, rows, cols, i, j, size, threshold, mode).Ok? &&
      output[i, j] == Bit(FilterCell(input, rows, cols, i, j, size, threshold, mode) == Ok(true))
    ensures !ok ==> exists j :: 0 <= j < cols && FilterCell(input, rows, cols, i, j, size, threshold, mode).Err?
    ensures forall i', j' :: 0 <= i' < rows && i' != i && 0 <= j' < cols ==> output[i', j'] == old(output[i', j'])
  {
    var j := 0;
    while j < cols
      invariant 0 <= j <= cols
      invariant forall j' :: 0 <= j' < j ==>
        FilterCell(input, rows, cols, i, j', size, threshold, mode).Ok? &&
        output[i, j'] == Bit(FilterCell(input, rows, cols, i, j', size, threshold, mode) == Ok(true))
      invariant forall i', j' :: 0 <= i' < rows && i' != i && 0 <= j' < cols ==> output[i', j'] == old(output[i', j'])
    {
      var cell := FilterCell(input, rows, cols, i, j, size, threshold, mode);
      if cell.Err? {
        return false;
      }
      output[i, j] := Bit(cell == Ok(true));
      j := j + 1;
    }
    return true;
  }

  /** `_local_extrema_filter`: ValueError unless `size` is odd; otherwise
      the test at every cell, with the `size // 2` rows nearest each pole
      cleared. */
  method ExtremaFilter(input: Grid, rows: nat, cols: nat, size: nat, threshold: int, mode: Mode)
    returns (r: Result<array2<int>>)
    requires IsGrid(input, rows, cols) && rows > 0 && cols > 0
    ensures r.Err? <==> size % 2 != 1 || FilterFails(input, rows, cols, size, threshold, mode)
    ensures r.Err? ==> r.error == (if size % 2 != 1 then ValueError else IndexError)
    ensures r.Ok? ==> fresh(r.value) && r.value.Length0 == rows && r.value.Length1 == cols
    ensures r.Ok? ==> forall i, j :: 0 <= i < rows && 0 <= j < cols ==>
      r.value[i, j] == Bit(!ZeroedRow(i, rows, size / 2) && FilterCell(input, rows, cols, i, j, size, threshold, mode) == Ok(true))
  {
    if size % 2 != 1 {
      return Err(ValueError);
    }
    r := FilterCells(input, rows, cols, size, threshold, mode);
    if r.Err? {
      return;
    }
    var output := r.value;
    var h := size / 2;
    ZeroRows(output, 0, if h < rows then h else rows);
    ZeroRows(output, TailStart(rows, h), rows);
  }

  /** `_local_max_laplace`: the centre is non-zero and no window value
      exceeds it. */
  function LocalMaxLaplace(buf: seq<int>, size: nat): bool
    requires size >= 1 && |buf| == size * size
  {
    var o := (size * size) / 2;
    buf[o] != 0 && buf[o] == SeqMax(buf)
  }

  /** Element-wise product of two grids (`np.multiply`). */
  function Product(a: Grid, b: Grid, rows: nat, cols: nat): (p: Grid)
    requires IsGrid(a, rows, cols) && IsGrid(b, rows, cols)
    ensures IsGrid(p, rows, cols)
  {
    seq(rows, i requires 0 <= i < rows => seq(cols, j requires 0 <= j < cols => a[i][j] * b[i][j]))
  }

  /** `_remove_dup_laplace`: given the Laplacian of the frame, keeps the
      candidates (non-zero cells of `mask`) whose Laplacian is the largest
      in their `size` x `size` neighbourhood of masked Laplacian values. */
  function RemoveDupLaplace(lap: Grid, mask: Grid, rows: nat, cols: nat, size: nat): (out: Grid)
    requires IsGrid(lap, rows, cols) && IsGrid(mask, rows, cols) && rows > 0 && cols > 0 && size >= 1
    ensures IsGrid(out, rows, cols)
  {
    var p := Product(lap, mask, rows, cols);
    seq(rows, i requires 0 <= i < rows =>
      seq(cols, j requires 0 <= j < cols => Bit(LocalMaxLaplace(Window(p, rows, cols, i, j, size), size))))
  }

  lemma SeqMaxAtMost(s: seq<int>, c: int)
    requires |s| > 0
    ensures SeqMax(s) <= c <==> forall t :: 0 <= t < |s| ==> s[t] <= c
  {
  }

  /** Every window entry is at most c iff every neighbour is. */
  lemma WindowAtMost(p: Grid, rows: nat, cols: nat, i: int, j: int, size: nat, c: int)
    requires IsGrid(p, rows, cols) && rows > 0 && cols > 0 && size >= 1
    ensures (forall t :: 0 <= t < size * size ==> Window(p, rows, cols, i, j, size)[t] <= c) <==>
      forall di, dj :: 0 <= di < size && 0 <= dj < size ==> Neighbour(p, rows, cols, i, j, size, di, dj) <= c
  {
    if forall t :: 0 <= t < size * size ==> Window(p, rows, cols, i, j, size)[t] <= c {
      WindowToNeighbours(p, rows, cols, i, j, size, c);
    }
    if forall di, dj :: 0 <= di < size && 0 <= dj < size ==> Neighbour(p, rows, cols, i, j, size, di, dj) <= c {
      NeighboursToWindow(p, rows, cols, i, j, size, c);
    }
  }

  lemma WindowToNeighbours(p: Grid, rows: nat, cols: nat, i: int, j: int, size: nat, c: int)
    requires IsGrid(p, rows, cols) && rows > 0 && cols > 0 && size >= 1
    requires forall t :: 0 <= t < size * size ==> Window(p, rows, cols, i, j, size)[t] <= c
    ensures forall di, dj :: 0 <= di < size && 0 <= dj < size ==> Neighbour(p, rows, cols, i, j, size, di, dj) <= c
  {
    forall di, dj | 0 <= di < size && 0 <= dj < size
      ensures Neighbour(p, rows, cols, i, j, size, di, dj) <= c
    {
      WindowAt(p, rows, cols, i, j, size, di, dj);
    }
  }

  lemma NeighboursToWindow(p: Grid, rows: nat, cols: nat, i: int, j: int, size: nat, c: int)
    requires IsGrid(p, rows, cols) && rows > 0 && cols > 0 && size >= 1
    requires forall di, dj :: 0 <= di < size && 0 <= dj < size ==> Neighbour(p, rows, cols, i, j, size, di, dj) <= c
    ensures forall t :: 0 <= t < size * size ==> Window(p, rows, cols, i, j, size)[t] <= c
  {
    forall t | 0 <= t < size * size
      ensures Window(p, rows, cols, i, j, size)[t] <= c
    {
      var di, dj := WindowEntry(p, rows, cols, i, j, size, t);
    }
  }

  /** A cell survives duplicate removal iff its masked Laplacian is non-zero
      and no neighbour's masked Laplacian exceeds it; equal maxima all
      survive. */
  lemma RemoveDupKeeps(lap: Grid, mask: Grid, rows: nat, cols: nat, size: nat, i: nat, j: nat)
    requires IsGrid(lap, rows, cols) && IsGrid(mask, rows, cols) && i < rows && j < cols && size % 2 == 1
    ensures var p := Product(lap, mask, rows, cols);
      RemoveDupLaplace(lap, mask, rows, cols, size)[i][j] == 1 <==>
      lap[i][j] * mask[i][j] != 0 &&
      forall di, dj :: 0 <= di < size && 0 <= dj < size ==> Neighbour(p, rows, cols, i, j, size, di, dj) <= lap[i][j] * mask[i][j]
  {
    var p := Product(lap, mask, rows, cols);
    var buf := Window(p, rows, cols, i, j, size);
    WindowCenter(p, rows, cols, i, j, size);
    SeqMaxAtMost(buf, p[i][j]);
    WindowAtMost(p, rows, cols, i, j, size, p[i][j]);
    assert buf[(size * size) / 2] == p[i][j];
  }

  // ---------------------------------------------------------------------
  // `_remove_dup_laplace` on floating-point values

  /** `lap` at (i, j) is the five-point Laplacian of `g`: the sum of the
      four stencil neighbours minus four times the centre, with wrap
      boundaries. */
  predicate LaplacianAt(g: Grid, lap: Grid, rows: nat, cols: nat, i: nat, j: nat)
    requires IsGrid(g, rows, cols) && IsGrid(lap, rows, cols) && i < rows && j < cols
  {
    lap[i][j] == Neighbour(g, rows, cols, i, j, 3, 0, 1) + Neighbour(g, rows, cols, i, j, 3, 2, 1) +
                 Neighbour(g, rows, cols, i, j, 3, 1, 0) + Neighbour(g, rows, cols, i, j, 3, 1, 2) - 4 * g[i][j]
  }

  /** (i, j) is strictly above its four stencil neighbours. */
  predicate StrictPeak(g: Grid, rows: nat, cols: nat, i: nat, j: nat)
    requires IsGrid(g, rows, cols) && i < rows && j < cols
  {
    Neighbour(g, rows, cols, i, j, 3, 0, 1) < g[i][j] && Neighbour(g, rows, cols, i, j, 3, 2, 1) < g[i][j] &&
    Neighbour(g, rows, cols, i, j, 3, 1, 0) < g[i][j] && Neighbour(g, rows, cols, i, j, 3, 1, 2) < g[i][j]
  }

  /** `cand` flags cells with 0 or 1, and only cells that pass the
      maximum-mode extremum test on `g` carry a 1. */
  predicate MaxCandidates(g: Grid, cand: Grid, rows: nat, cols: nat, size: nat, threshold: int)
    requires IsGrid(g, rows, cols) && IsGrid(cand, rows, cols) && rows > 0 && cols > 0 && size >= 1
  {
    forall a, b :: 0 <= a < rows && 0 <= b < cols ==>
      (cand[a][b] == 0 || cand[a][b] == 1) &&
      (cand[a][b] == 1 ==> FilterCell(g, rows, cols, a, b, size, threshold, Max) == Ok(true))
  }

  /** A window that passes the maximum-mode test has no entry above its
      centre. */
  lemma MaxPassAtLeast(buf: seq<int>, size: nat, threshold: int, t: nat)
    requires size >= 1 && |buf| == size * size && t < |buf|
    ensures ExtremaFunc(buf, size, threshold, Max) == Ok(true) ==> buf[t] <= Origin(buf, size)
  {
  }

  /** A cell that passes the maximum-mode test is at least every cell of
      its window; (du, dv) is the offset from the centre. */
  lemma MaxPassAbove(g: Grid, rows: nat, cols: nat, i: nat, j: nat, size: nat, threshold: int, du: int, dv: int)
    requires IsGrid(g, rows, cols) && i < rows && j < cols && size >= 1
    requires -(size / 2) <= du <= size / 2 && -(size / 2) <= dv <= size / 2 && size % 2 == 1
    ensures FilterCell(g, rows, cols, i, j, size, threshold, Max) == Ok(true) ==>
      g[Wrap(i + du, rows)][Wrap(j + dv, cols)] <= g[i][j]
  {
    var h := size / 2;
    var di: nat, dj: nat := h + du, h + dv;
    var buf := Window(g, rows, cols, i, j, size);
    var t := di * size + dj;
    assert t < |buf| && buf[t] == g[Wrap(i + du, rows)][Wrap(j + dv, cols)] by {
      WindowAt(g, rows, cols, i, j, size, di, dj);
    }
    assert Origin(buf, size) == g[i][j] by {
      WindowCenter(g, rows, cols, i, j, size);
    }
    MaxPassAtLeast(buf, size, threshold, t);
  }

  /** A cell one step from a maximum-mode candidate and strictly below it
      is no candidate: the candidate lies in its window. */
  lemma LowerNotCandidate(g: Grid, cand: Grid, rows: nat, cols: nat, size: nat, threshold: int,
                          i: nat, j: nat, du: int, dv: int)
    requires IsGrid(g, rows, cols) && IsGrid(cand, rows, cols) && i < rows && j < cols
    requires size % 2 == 1 && size >= 3 && -1 <= du <= 1 && -1 <= dv <= 1
    requires MaxCandidates(g, cand, rows, cols, size, threshold)
    requires g[Wrap(i + du, rows)][Wrap(j + dv, cols)] < g[i][j]
    ensures cand[Wrap(i + du, rows)][Wrap(j + dv, cols)] == 0
  {
    LowerFailsMax(g, rows, cols, size, threshold, i, j, du, dv);
  }

  /** A cell one step from (i, j) and strictly below it fails the
      maximum-mode test. */
  lemma LowerFailsMax(g: Grid, rows: nat, cols: nat, size: nat, threshold: int, i: nat, j: nat, du: int, dv: int)
    requires IsGrid(g, rows, cols) && i < rows && j < cols
    requires size % 2 == 1 && size >= 3 && -1 <= du <= 1 && -1 <= dv <= 1
    requires g[Wrap(i + du, rows)][Wrap(j + dv, cols)] < g[i][j]
    ensures FilterCell(g, rows, cols, Wrap(i + du, rows), Wrap(j + dv, cols), size, threshold, Max) != Ok(true)
  {
    var a, b := Wrap(i + du, rows), Wrap(j + dv, cols);
    WrapShift(i + du, -du, rows);
    WrapShift(j + dv, -dv, cols);
    assert Wrap(a + -du, rows) == i && Wrap(b + -dv, cols) == j;
    MaxPassAbove(g, rows, cols, a, b, size, threshold, -du, -dv);
  }

  /** `_remove_dup_laplace` as written drops every maximum-mode candidate:
      a window maximum has a Laplacian of at most 0; at 0 it is dropped as
      falsy, and below 0 some stencil neighbour is strictly lower, is no
      candidate, and its 0 in the masked Laplacian beats the centre. */
  lemma MaxModeDropsAll(g: Grid, lap: Grid, cand: Grid, rows: nat, cols: nat, size: nat, threshold: int, i: nat, j: nat)
    requires IsGrid(g, rows, cols) && IsGrid(lap, rows, cols) && IsGrid(cand, rows, cols) && i < rows && j < cols
    requires size % 2 == 1 && size >= 3
    requires MaxCandidates(g, cand, rows, cols, size, threshold) && LaplacianAt(g, lap, rows, cols, i, j)
    ensures RemoveDupLaplace(lap, cand, rows, cols, 5)[i][j] == 0
  {
    var du, dv := 0, 0;
    if cand[i][j] == 1 {
      MaxPassLaplacian(g, lap, rows, cols, size, threshold, i, j);
      if lap[i][j] < 0 {
        du, dv := LowerNeighbour(g, lap, rows, cols, i, j);
        LowerBeatsCentre(g, lap, cand, rows, cols, size, threshold, i, j, du, dv);
      }
    }
    DroppedBelowNeighbour(lap, cand, rows, cols, i, j, du, dv);
  }

  /** A candidate is dropped when its Laplacian is 0, or when a cell of its
      5 x 5 window holds 0 in the masked Laplacian and its own is negative. */
  lemma DroppedBelowNeighbour(lap: Grid, cand: Grid, rows: nat, cols: nat, i: nat, j: nat, du: int, dv: int)
    requires IsGrid(lap, rows, cols) && IsGrid(cand, rows, cols) && i < rows && j < cols
    requires -2 <= du <= 2 && -2 <= dv <= 2 && (cand[i][j] == 0 || cand[i][j] == 1)
    requires cand[i][j] == 1 ==> lap[i][j] <= 0
    requires cand[i][j] == 1 && lap[i][j] < 0 ==>
      Neighbour(Product(lap, cand, rows, cols), rows, cols, i, j, 5, 2 + du, 2 + dv) == 0
    ensures RemoveDupLaplace(lap, cand, rows, cols, 5)[i][j] == 0
  {
    RemoveDupKeeps(lap, cand, rows, cols, 5, i, j);
    if cand[i][j] == 0 {
      assert lap[i][j] * cand[i][j] == 0;
    } else {
      assert lap[i][j] * cand[i][j] == lap[i][j];
    }
  }

  /** A cell that passes the maximum-mode test has a Laplacian of at most 0. */
  lemma MaxPassLaplacian(g: Grid, lap: Grid, rows: nat, cols: nat, size: nat, threshold: int, i: nat, j: nat)
    requires IsGrid(g, rows, cols) && IsGrid(lap, rows, cols) && i < rows && j < cols
    requires size % 2 == 1 && size >= 3 && LaplacianAt(g, lap, rows, cols, i, j)
    requires FilterCell(g, rows, cols, i, j, size, threshold, Max) == Ok(true)
    ensures lap[i][j] <= 0
  {
    MaxPassAbove(g, rows, cols, i, j, size, threshold, -1, 0);
    MaxPassAbove(g, rows, cols, i, j, size, threshold, 1, 0);
    MaxPassAbove(g, rows, cols, i, j, size, threshold, 0, -1);
    MaxPassAbove(g, rows, cols, i, j, size, threshold, 0, 1);
  }

  /** A negative Laplacian has a stencil neighbour strictly below the centre. */
  lemma LowerNeighbour(g: Grid, lap: Grid, rows: nat, cols: nat, i: nat, j: nat) returns (du: int, dv: int)
    requires IsGrid(g, rows, cols) && IsGrid(lap, rows, cols) && i < rows && j < cols
    requires LaplacianAt(g, lap, rows, cols, i, j) && lap[i][j] < 0
    ensures -1 <= du <= 1 && -1 <= dv <= 1
    ensures g[Wrap(i + du, rows)][Wrap(j + dv, cols)] < g[i][j]
  {
    if Neighbour(g, rows, cols, i, j, 3, 0, 1) < g[i][j] {
      du, dv := -1, 0;
    } else if Neighbour(g, rows, cols, i, j, 3, 2, 1) < g[i][j] {
      du, dv := 1, 0;
    } else if Neighbour(g, rows, cols, i, j, 3, 1, 0) < g[i][j] {
      du, dv := 0, -1;
    } else {
      du, dv := 0, 1;
    }
  }

  /** A lower stencil neighbour of a maximum-mode candidate holds 0 in the
      masked Laplacian. */
  lemma LowerBeatsCentre(g: Grid, lap: Grid, cand: Grid, rows: nat, cols: nat, size: nat, threshold: int,
                         i: nat, j: nat, du: int, dv: int)
    requires IsGrid(g, rows, cols) && IsGrid(lap, rows, cols) && IsGrid(cand, rows, cols) && i < rows && j < cols
    requires size % 2 == 1 && size >= 3 && -1 <= du <= 1 && -1 <= dv <= 1
    requires MaxCandidates(g, cand, rows, cols, size, threshold)
    requires g[Wrap(i + du, rows)][Wrap(j + dv, cols)] < g[i][j]
    ensures Neighbour(Product(lap, cand, rows, cols), rows, cols, i, j, 5, 2 + du, 2 + dv) == 0
  {
    LowerNotCandidate(g, cand, rows, cols, size, threshold, i, j, du, dv);
    UnflaggedZero(lap, cand, rows, cols, i, j, du, dv);
  }

  lemma UnflaggedZero(lap: Grid, cand: Grid, rows: nat, cols: nat, i: nat, j: nat, du: int, dv: int)
    requires IsGrid(lap, rows, cols) && IsGrid(cand, rows, cols) && i < rows && j < cols
    requires cand[Wrap(i + du, rows)][Wrap(j + dv, cols)] == 0
    ensures Neighbour(Product(lap, cand, rows, cols), rows, cols, i, j, 5, 2 + du, 2 + dv) == 0
  {
    var a, b := Wrap(i + du, rows), Wrap(j + dv, cols);
    assert Product(lap, cand, rows, cols)[a][b] == lap[a][b] * 0;
  }

  /** The evident intent, with the Laplacian negated in maximum mode: a
      maximum-mode candidate that strictly tops its stencil, and whose
      Laplacian is no larger than that of any candidate in its 5 x 5
      window, is kept. */
  lemma OrientedKeepsPeak(g: Grid, lap: Grid, cand: Grid, rows: nat, cols: nat, size: nat, threshold: int, i: nat, j: nat)
    requires IsGrid(g, rows, cols) && IsGrid(lap, rows, cols) && IsGrid(cand, rows, cols) && i < rows && j < cols
    requires size >= 1 && MaxCandidates(g, cand, rows, cols, size, threshold)
    requires cand[i][j] == 1 && LaplacianAt(g, lap, rows, cols, i, j) && StrictPeak(g, rows, cols, i, j)
    requires forall di, dj :: 0 <= di < 5 && 0 <= dj < 5 ==>
      Neighbour(cand, rows, cols, i, j, 5, di, dj) == 0 || lap[i][j] <= Neighbour(lap, rows, cols, i, j, 5, di, dj)
    ensures RemoveDupLaplace(Oriented(lap, rows, cols, Max), cand, rows, cols, 5)[i][j] == 1
  {
    var o := Oriented(lap, rows, cols, Max);
    var p := Product(o, cand, rows, cols);
    assert o[i][j] * cand[i][j] == -lap[i][j];
    forall di, dj | 0 <= di < 5 && 0 <= dj < 5
      ensures Neighbour(p, rows, cols, i, j, 5, di, dj) <= -lap[i][j]
    {
      OrientedEntry(lap, cand, rows, cols, i, j, di, dj);
    }
    RemoveDupKeeps(o, cand, rows, cols, 5, i, j);
  }

  lemma OrientedEntry(lap: Grid, cand: Grid, rows: nat, cols: nat, i: nat, j: nat, di: nat, dj: nat)
    requires IsGrid(lap, rows, cols) && IsGrid(cand, rows, cols) && i < rows && j < cols && di < 5 && dj < 5
    requires Neighbour(cand, rows, cols, i, j, 5, di, dj) == 0 ||
      (Neighbour(cand, rows, cols, i, j, 5, di, dj) == 1 && lap[i][j] <= Neighbour(lap, rows, cols, i, j, 5, di, dj))
    requires lap[i][j] < 0
    ensures Neighbour(Product(Oriented(lap, rows, cols, Max), cand, rows, cols), rows, cols, i, j, 5, di, dj) <= -lap[i][j]
  {
  }

  /** The Laplacian as duplicate removal is meant to rank it: as is for
      minima and negated for maxima, so in both modes the sharpest
      extremum scores highest. */
  function Oriented(lap: Grid, rows: nat, cols: nat, mode: Mode): (o: Grid)
    requires IsGrid(lap, rows, cols)
    ensures IsGrid(o, rows, cols)
    ensures forall i, j :: 0 <= i < rows && 0 <= j < cols ==> o[i][j] == (if mode == Min then lap[i][j] else -lap[i][j])
  {
    if mode == Min then lap
    else seq(rows, i requires 0 <= i < rows => seq(cols, j requires 0 <= j < cols => -lap[i][j]))
  }

  /** A value of the Laplacian stage: finite, an infinity, or NaN. */
  datatype Ext = Fin(v: int) | PosInf | NegInf | NaN

  /** `a <= b` on floats: false as soon as either side is NaN. */
  predicate ExtLe(a: Ext, b: Ext)
  {
    !a.NaN? && !b.NaN? && (a.NegInf? || b.PosInf? || (a.Fin? && b.Fin? && a.v <= b.v))
  }

  /** `ndarray.max()`: NaN when some entry is NaN, otherwise the largest entry. */
  function ExtMax(s: seq<Ext>): (m: Ext)
    requires |s| > 0
    ensures m.NaN? <==> exists t :: 0 <= t < |s| && s[t].NaN?
    ensures !m.NaN? ==> m in s && forall t :: 0 <= t < |s| ==> ExtLe(s[t], m)
  {
    if |s| == 1 then s[0]
    else
      var m' := ExtMax(s[1..]);
      assert forall t :: 1 <= t < |s| ==> s[t] == s[1..][t - 1];
      if s[0].NaN? || m'.NaN? then NaN
      else if ExtLe(m', s[0]) then s[0] else m'
  }

  /** `x * b` for a float x and a finite b: an infinity times 0 is NaN. */
  function ExtTimes(x: Ext, b: int): Ext
  {
    match x
    case Fin(v) => Fin(v * b)
    case NaN => NaN
    case PosInf => if b > 0 then PosInf else if b < 0 then NegInf else NaN
    case NegInf => if b > 0 then NegInf else if b < 0 then PosInf else NaN
  }

  /** Float negation. */
  function ExtNeg(x: Ext): Ext
  {
    match x
    case Fin(v) => Fin(-v)
    case NaN => NaN
    case PosInf => NegInf
    case NegInf => PosInf
  }

  /** `np.multiply` of a float grid by a finite grid. */
  function ProductExt(a: seq<seq<Ext>>, b: Grid, rows: nat, cols: nat): (p: seq<seq<Ext>>)
    requires IsGrid(a, rows, cols) && IsGrid(b, rows, cols)
    ensures IsGrid(p, rows, cols)
  {
    seq(rows, i requires 0 <= i < rows => seq(cols, j requires 0 <= j < cols => ExtTimes(a[i][j], b[i][j])))
  }

  /** `_local_max_laplace` on floats: `buffer[origin]` is truthy (not 0)
      and equal to `buffer.max()`; NaN equals nothing. */
  predicate LocalMaxExt(buf: seq<Ext>, size: nat)
    requires size >= 1 && |buf| == size * size
  {
    var o := buf[(size * size) / 2];
    o != Fin(0) && !o.NaN? && o == ExtMax(buf)
  }

  /** `_remove_dup_laplace` given the floating-point Laplacian of the frame. */
  function RemoveDupExt(lap: seq<seq<Ext>>, mask: Grid, rows: nat, cols: nat, size: nat): (out: Grid)
    requires IsGrid(lap, rows, cols) && IsGrid(mask, rows, cols) && rows > 0 && cols > 0 && size >= 1
    ensures IsGrid(out, rows, cols)
  {
    var p := ProductExt(lap, mask, rows, cols);
    seq(rows, i requires 0 <= i < rows =>
      seq(cols, j requires 0 <= j < cols => Bit(LocalMaxExt(Window(p, rows, cols, i, j, size), size))))
  }

  /** The window test: the origin is neither 0 nor NaN, and every entry is
      at most the origin, so no entry is NaN. */
  lemma LocalMaxExtIff(buf: seq<Ext>, size: nat)
    requires size >= 1 && |buf| == size * size
    ensures (size * size) / 2 < |buf|
    ensures LocalMaxExt(buf, size) <==>
      buf[(size * size) / 2] != Fin(0) && forall t :: 0 <= t < |buf| ==> ExtLe(buf[t], buf[(size * size) / 2])
  {
    var o := buf[(size * size) / 2];
    if (o != Fin(0) && forall t :: 0 <= t < |buf| ==> ExtLe(buf[t], o)) {
      var m := ExtMax(buf);
      var t :| 0 <= t < |buf| && buf[t] == m;
      assert ExtLe(m, o) && ExtLe(o, m);
    }
  }

  /** No cell of the size x size window around (i, j) exceeds x. */
  predicate ExtWindowAtMost(p: seq<seq<Ext>>, rows: nat, cols: nat, i: nat, j: nat, size: nat, x: Ext)
    requires IsGrid(p, rows, cols) && i < rows && j < cols
  {
    forall di, dj :: 0 <= di < size && 0 <= dj < size ==> ExtLe(Neighbour(p, rows, cols, i, j, size, di, dj), x)
  }

  /** A cell survives iff its masked Laplacian is neither 0 nor NaN and no
      neighbour's masked Laplacian is NaN or exceeds it. */
  lemma RemoveDupExtKeeps(lap: seq<seq<Ext>>, mask: Grid, rows: nat, cols: nat, size: nat, i: nat, j: nat)
    requires IsGrid(lap, rows, cols) && IsGrid(mask, rows, cols) && i < rows && j < cols && size % 2 == 1
    ensures var p := ProductExt(lap, mask, rows, cols);
      RemoveDupExt(lap, mask, rows, cols, size)[i][j] == 1 <==>
      p[i][j] != Fin(0) &&
      ExtWindowAtMost(p, rows, cols, i, j, size, p[i][j])
  {
    var p := ProductExt(lap, mask, rows, cols);
    var buf := Window(p, rows, cols, i, j, size);
    WindowCenter(p, rows, cols, i, j, size);
    assert buf[(size * size) / 2] == p[i][j];
    LocalMaxExtIff(buf, size);
    WindowExtLe(p, rows, cols, i, j, size, p[i][j]);
  }

  /** For a 0/1 flag grid whose product at (i, j) is the flag times l: the
      cell survives exactly when it is flagged, l is nonzero and no cell of
      its window exceeds l. */
  lemma RemoveDupExtCell(lap: seq<seq<Ext>>, cand: Grid, rows: nat, cols: nat, size: nat, i: nat, j: nat, l: int)
    requires IsGrid(lap, rows, cols) && IsGrid(cand, rows, cols) && i < rows && j < cols && size % 2 == 1
    requires cand[i][j] == 0 || cand[i][j] == 1
    requires ProductExt(lap, cand, rows, cols)[i][j] == (if cand[i][j] == 1 then Fin(l) else Fin(0))
    ensures var p := ProductExt(lap, cand, rows, cols);
      RemoveDupExt(lap, cand, rows, cols, size)[i][j] != 0 <==>
        cand[i][j] == 1 && l != 0 &&
        ExtWindowAtMost(p, rows, cols, i, j, size, Fin(l))
  {
    RemoveDupExtKeeps(lap, cand, rows, cols, size, i, j);
  }

  /** Every window entry is at most x iff every neighbour is. */
  lemma WindowExtLe(p: seq<seq<Ext>>, rows: nat, cols: nat, i: nat, j: nat, size: nat, x: Ext)
    requires IsGrid(p, rows, cols) && i < rows && j < cols
    ensures (forall t :: 0 <= t < size * size ==> ExtLe(Window(p, rows, cols, i, j, size)[t], x)) <==>
      forall di, dj :: 0 <= di < size && 0 <= dj < size ==> ExtLe(Neighbour(p, rows, cols, i, j, size, di, dj), x)
  {
    if forall t :: 0 <= t < size * size ==> ExtLe(Window(p, rows, cols, i, j, size)[t], x) {
      WindowExtLeNeighbours(p, rows, cols, i, j, size, x);
    }
    if forall di, dj :: 0 <= di < size && 0 <= dj < size ==> ExtLe(Neighbour(p, rows, cols, i, j, size, di, dj), x) {
      NeighboursExtLeWindow(p, rows, cols, i, j, size, x);
    }
  }

  lemma WindowExtLeNeighbours(p: seq<seq<Ext>>, rows: nat, cols: nat, i: nat, j: nat, size: nat, x: Ext)
    requires IsGrid(p, rows, cols) && i < rows && j < cols
    requires forall t :: 0 <= t < size * size ==> ExtLe(Window(p, rows, cols, i, j, size)[t], x)
    ensures forall di, dj :: 0 <= di < size && 0 <= dj < size ==> ExtLe(Neighbour(p, rows, cols, i, j, size, di, dj), x)
  {
    forall di, dj | 0 <= di < size && 0 <= dj < size
      ensures ExtLe(Neighbour(p, rows, cols, i, j, size, di, dj), x)
    {
      WindowAt(p, rows, cols, i, j, size, di, dj);
    }
  }

  lemma NeighboursExtLeWindow(p: seq<seq<Ext>>, rows: nat, cols: nat, i: nat, j: nat, size: nat, x: Ext)
    requires IsGrid(p, rows, cols) && i < rows && j < cols
    requires forall di, dj :: 0 <= di < size && 0 <= dj < size ==> ExtLe(Neighbour(p, rows, cols, i, j, size, di, dj), x)
    ensures forall t :: 0 <= t < size * size ==> ExtLe(Window(p, rows, cols, i, j, size)[t], x)
  {
    forall t | 0 <= t < size * size
      ensures ExtLe(Window(p, rows, cols, i, j, size)[t], x)
    {
      var di, dj := WindowEntry(p, rows, cols, i, j, size, t);
    }
  }

  /** A NaN anywhere in the window of `lap * mask` drops the cell. */
  lemma NaNInWindowDropped(lap: seq<seq<Ext>>, mask: Grid, rows: nat, cols: nat, size: nat, i: nat, j: nat, di: nat, dj: nat)
    requires IsGrid(lap, rows, cols) && IsGrid(mask, rows, cols) && i < rows && j < cols && size % 2 == 1
    requires di < size && dj < size && Neighbour(ProductExt(lap, mask, rows, cols), rows, cols, i, j, size, di, dj).NaN?
    ensures RemoveDupExt(lap, mask, rows, cols, size)[i][j] == 0
  {
    RemoveDupExtKeeps(lap, mask, rows, cols, size, i, j);
  }

  /** A finite grid as floats. */
  function Lift(g: Grid, rows: nat, cols: nat): (x: seq<seq<Ext>>)
    requires IsGrid(g, rows, cols)
    ensures IsGrid(x, rows, cols)
  {
    seq(rows, i requires 0 <= i < rows => seq(cols, j requires 0 <= j < cols => Fin(g[i][j])))
  }

  lemma {:induction false} ExtMaxFinite(s: seq<int>)
    requires |s| > 0
    ensures ExtMax(seq(|s|, t requires 0 <= t < |s| => Fin(s[t]))) == Fin(SeqMax(s))
  {
    var x := seq(|s|, t requires 0 <= t < |s| => Fin(s[t]));
    if |s| > 1 {
      assert x[1..] == seq(|s[1..]|, t requires 0 <= t < |s[1..]| => Fin(s[1..][t]));
      ExtMaxFinite(s[1..]);
    }
  }

  /** On finite values the float stage is the integer one. */
  lemma RemoveDupExtFinite(lap: Grid, mask: Grid, rows: nat, cols: nat, size: nat)
    requires IsGrid(lap, rows, cols) && IsGrid(mask, rows, cols) && rows > 0 && cols > 0 && size >= 1
    ensures RemoveDupExt(Lift(lap, rows, cols), mask, rows, cols, size) == RemoveDupLaplace(lap, mask, rows, cols, size)
  {
    var px := ProductExt(Lift(lap, rows, cols), mask, rows, cols);
    var p := Product(lap, mask, rows, cols);
    var a := RemoveDupExt(Lift(lap, rows, cols), mask, rows, cols, size);
    var b := RemoveDupLaplace(lap, mask, rows, cols, size);
    forall i | 0 <= i < rows
      ensures a[i] == b[i]
    {
      forall j | 0 <= j < cols
        ensures a[i][j] == b[i][j]
      {
        var wx := Window(px, rows, cols, i, j, size);
        var w := Window(p, rows, cols, i, j, size);
        assert wx == seq(|w|, t requires 0 <= t < |w| => Fin(w[t]));
        ExtMaxFinite(w);
      }
    }
  }
}
