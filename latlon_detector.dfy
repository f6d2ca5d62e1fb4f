/** The `pytrack` detector functions: a minimum filter over a frame padded
    with `size / 2` invalid (NaN) rows above and below, followed by the same
    Laplacian de-duplication as the rectangular-grid detectors. */
module LatLonDetection {
  import opened Util
  import opened Grids
  import opened Extrema
  import Detection

  /** A padded cell: `None` stands for NaN. */
  type Cell = Option<int>

  predicate AllValid(buf: seq<Cell>)
  {
    forall t :: 0 <= t < |buf| ==> buf[t].Some?
  }

  function Values(buf: seq<Cell>): (vals: seq<int>)
    requires AllValid(buf)
    ensures |vals| == |buf| && forall t :: 0 <= t < |buf| ==> buf[t] == Some(vals[t])
  {
    seq(|buf|, t requires 0 <= t < |buf| => buf[t].value)
  }

  /** `local_min_latlon`. A NaN anywhere in the window makes its minimum
      NaN, which equals no centre, so such a window never qualifies. */
  function LatLonMinFunc(buf: seq<Cell>, size: nat, threshold: int): bool
    requires size >= 1 && |buf| == size * size
  {
    AllValid(buf) && MinWithMargin(Values(buf), size, threshold)
  }

  /** `local_min_latlon` on a window without NaN: the centre must equal the
      window minimum and, for a non-zero threshold, the value at position
      `size / 2` of the sorted window must lie more than `threshold` above
      it. */
  function MinWithMargin(vals: seq<int>, size: nat, threshold: int): bool
    requires size >= 1 && |vals| == size * size
  {
    if threshold == 0 then Origin(vals, size) == SeqMin(vals)
    else if Origin(vals, size) == SeqMin(vals) then Sort(vals)[size / 2] - Origin(vals, size) > threshold
    else false
  }

  /** A NaN-free window qualifies iff its centre c is its minimum and, for
      a non-zero threshold, at most `size / 2` of its values are within
      `threshold` of c (so most of the window lies above it). */
  lemma MinWithMarginSpec(vals: seq<int>, size: nat, threshold: int)
    requires size >= 1 && |vals| == size * size
    ensures MinWithMargin(vals, size, threshold) <==>
      IsWindowMin(vals, Origin(vals, size)) &&
      (threshold == 0 || CountWithin(vals, Origin(vals, size), threshold) <= size / 2)
  {
    OriginIsMin(vals, size);
    if threshold != 0 {
      HalfInSquare(size);
      MarginAbove(vals, size / 2, Origin(vals, size), threshold);
    }
  }

  /** The padded frame: `h` NaN rows, the frame, `h` NaN rows. */
  function Padded(input: Grid, rows: nat, cols: nat, h: nat): (p: seq<seq<Cell>>)
    requires IsGrid(input, rows, cols)
    ensures IsGrid(p, rows + 2 * h, cols)
  {
    seq(rows + 2 * h, p requires 0 <= p < rows + 2 * h => seq(cols, j requires 0 <= j < cols =>
      PaddedCell(input, rows, cols, h, p, j)))
  }

  function PaddedCell(input: Grid, rows: nat, cols: nat, h: nat, p: nat, j: nat): Cell
    requires IsGrid(input, rows, cols)
  {
    if h <= p < rows + h && j < cols then Some(input[p - h][j]) else None
  }

  /** Assigns `v` to every cell of rows lo..hi-1. */
  method FillRows(a: array2<Cell>, lo: nat, hi: nat, v: nat -> nat -> Cell)
    requires lo <= hi <= a.Length0
    modifies a
    ensures forall p, j :: 0 <= p < a.Length0 && 0 <= j < a.Length1 ==>
      a[p, j] == if lo <= p < hi then v(p)(j) else old(a[p, j])
  {
    var p := lo;
    while p < hi
      invariant lo <= p <= hi
      invariant forall p', j :: 0 <= p' < a.Length0 && 0 <= j < a.Length1 ==>
        a[p', j] == if lo <= p' < p then v(p')(j) else old(a[p', j])
    {
      var j := 0;
      while j < a.Length1
        invariant 0 <= j <= a.Length1
        invariant forall p', j' :: 0 <= p' < a.Length0 && 0 <= j' < a.Length1 ==>
          a[p', j'] == if lo <= p' < p || (p' == p && j' < j) then v(p')(j') else old(a[p', j'])
      {
        a[p, j] := v(p)(j);
        j := j + 1;
      }
      p := p + 1;
    }
  }

  /** `padded_input[:h] = nan; padded_input[h:-h] = input;
      padded_input[-h:] = nan` on a fresh array. */
  method PadInput(input: Grid, rows: nat, cols: nat, h: nat) returns (a: array2<Cell>)
    requires IsGrid(input, rows, cols) && h > 0
    ensures fresh(a) && a.Length0 == rows + 2 * h && a.Length1 == cols
    ensures Detection.Contents(a) == Padded(input, rows, cols, h)
  {
    a := new Cell[rows + 2 * h, cols];
    FillRows(a, 0, h, _ => _ => None);
    FillRows(a, h, rows + h, (p: nat) => (j: nat) => PaddedCell(input, rows, cols, h, p, j));
    FillRows(a, rows + h, rows + 2 * h, _ => _ => None);
    assert Detection.Contents(a) == Padded(input, rows, cols, h) by {
      var c := Detection.Contents(a);
      var e := Padded(input, rows, cols, h);
      forall p | 0 <= p < rows + 2 * h
        ensures c[p] == e[p]
      {
      }
    }
  }

  /** `generic_filter(padded_input, local_min_latlon, size, mode='wrap')`. */
  function PaddedFilter(pg: seq<seq<Cell>>, prows: nat, cols: nat, size: nat, threshold: int): (g: Grid)
    requires IsGrid(pg, prows, cols) && prows > 0 && cols > 0 && size >= 1
    ensures IsGrid(g, prows, cols)
  {
    seq(prows, p requires 0 <= p < prows => seq(cols, j requires 0 <= j < cols =>
      Bit(LatLonMinFunc(Window(pg, prows, cols, p, j, size), size, threshold))))
  }

  /** The window the padded filter hands `local_min_latlon` for frame cell
      (i, j): the window around padded row i + size / 2. */
  function PaddedWindow(input: Grid, rows: nat, cols: nat, size: nat, i: nat, j: nat): seq<Cell>
    requires IsGrid(input, rows, cols) && rows > 0 && cols > 0
  {
    Window(Padded(input, rows, cols, size / 2), rows + 2 * (size / 2), cols, i + size / 2, j, size)
  }

  /** `local_minima_filter_latlon` for a window of at least two cells:
      the padded filter output with the padding rows stripped. */
  function LatLonMinima(input: Grid, rows: nat, cols: nat, size: nat, threshold: int): (g: Grid)
    requires IsGrid(input, rows, cols) && rows > 0 && cols > 0 && size >= 2
    ensures IsGrid(g, rows, cols)
  {
    seq(rows, i requires 0 <= i < rows => seq(cols, j requires 0 <= j < cols =>
      Bit(LatLonMinFunc(PaddedWindow(input, rows, cols, size, i, j), size, threshold))))
  }

  /** Stripping the padding rows from the padded filter output leaves
      `LatLonMinima`. */
  lemma StrippedFilter(input: Grid, rows: nat, cols: nat, size: nat, threshold: int)
    requires IsGrid(input, rows, cols) && rows > 0 && cols > 0 && size >= 2
    ensures PaddedFilter(Padded(input, rows, cols, size / 2), rows + 2 * (size / 2), cols, size, threshold)[size / 2 .. rows + size / 2]
      == LatLonMinima(input, rows, cols, size, threshold)
  {
    var h := size / 2;
    var f := PaddedFilter(Padded(input, rows, cols, h), rows + 2 * h, cols, size, threshold);
    var m := LatLonMinima(input, rows, cols, size, threshold);
    forall i | 0 <= i < rows
      ensures f[i + h] == m[i]
    {
      forall j | 0 <= j < cols
        ensures f[i + h][j] == m[i][j]
      {
        StrippedCell(input, rows, cols, size, h, threshold, i, j);
      }
    }
  }

  lemma StrippedCell(input: Grid, rows: nat, cols: nat, size: nat, h: nat, threshold: int, i: nat, j: nat)
    requires IsGrid(input, rows, cols) && size >= 2 && h == size / 2 && i < rows && j < cols
    ensures PaddedFilter(Padded(input, rows, cols, h), rows + 2 * h, cols, size, threshold)[i + h][j]
      == LatLonMinima(input, rows, cols, size, threshold)[i][j]
  {
    var pg := Padded(input, rows, cols, h);
    assert Window(pg, rows + 2 * h, cols, i + h, j, size) == PaddedWindow(input, rows, cols, size, i, j);
    PaddedFilterCell(pg, rows + 2 * h, cols, size, threshold, i + h, j);
    LatLonMinimaCell(input, rows, cols, size, threshold, i, j);
  }

  lemma PaddedFilterCell(pg: seq<seq<Cell>>, prows: nat, cols: nat, size: nat, threshold: int, p: nat, j: nat)
    requires IsGrid(pg, prows, cols) && size >= 1 && p < prows && j < cols
    ensures PaddedFilter(pg, prows, cols, size, threshold)[p][j] ==
      Bit(LatLonMinFunc(Window(pg, prows, cols, p, j, size), size, threshold))
  {
  }

  lemma LatLonMinimaCell(input: Grid, rows: nat, cols: nat, size: nat, threshold: int, i: nat, j: nat)
    requires IsGrid(input, rows, cols) && size >= 2 && i < rows && j < cols
    ensures LatLonMinima(input, rows, cols, size, threshold)[i][j] ==
      Bit(LatLonMinFunc(PaddedWindow(input, rows, cols, size, i, j), size, threshold))
  {
  }

  /** A window over a padding cell holds a NaN. */
  lemma NanWindow(pg: seq<seq<Cell>>, prows: nat, cols: nat, p: nat, j: nat, size: nat, di: nat, dj: nat)
    requires IsGrid(pg, prows, cols) && prows > 0 && cols > 0 && di < size && dj < size
    requires Neighbour(pg, prows, cols, p, j, size, di, dj) == None
    ensures !AllValid(Window(pg, prows, cols, p, j, size))
  {
    WindowAt(pg, prows, cols, p, j, size, di, dj);
    assert !AllValid(Window(pg, prows, cols, p, j, size)) by {
      assert Window(pg, prows, cols, p, j, size)[di * size + dj].None?;
    }
  }

  /** The window around padded row i + h of a polar row i reaches a
      padding row. */
  lemma PolarWindow(input: Grid, rows: nat, cols: nat, h: nat, size: nat, i: nat, j: nat)
    requires IsGrid(input, rows, cols) && size >= 2 && h == size / 2 && i < rows && j < cols
    requires i < h || i + size > rows + h
    ensures !AllValid(PaddedWindow(input, rows, cols, size, i, j))
  {
    var di := PolarRow(i, h, rows, size);
    PaddingCell(input, rows, cols, h, i + di, j);
    assert Neighbour(Padded(input, rows, cols, h), rows + 2 * h, cols, i + h, j, size, di, h) == None;
    NanWindow(Padded(input, rows, cols, h), rows + 2 * h, cols, i + h, j, size, di, h);
  }

  /** A window row offset that lands a polar row on a padding row. */
  lemma PolarRow(i: nat, h: nat, rows: nat, size: nat) returns (di: nat)
    requires size >= 2 && h == size / 2 && i < rows
    requires i < h || i + size > rows + h
    ensures di < size && h < size && i + di < rows + 2 * h && !(h <= i + di < rows + h)
    ensures Wrap(i + h + di - h, rows + 2 * h) == i + di
  {
    di := if i < h then 0 else rows + h - i;
  }

  lemma PaddingCell(input: Grid, rows: nat, cols: nat, h: nat, p: nat, j: nat)
    requires IsGrid(input, rows, cols) && p < rows + 2 * h && j < cols && !(h <= p < rows + h)
    ensures Padded(input, rows, cols, h)[p][j] == None
  {
  }

  /** Rows whose window reaches a padding row never qualify: the top
      `size / 2` rows, and the bottom rows i with i + size > rows + size / 2
      (the bottom `size / 2` rows for an odd size, one fewer for an even
      size, whose window extends one row less below the centre). */
  lemma LatLonPolarRows(input: Grid, rows: nat, cols: nat, size: nat, threshold: int, i: nat, j: nat)
    requires IsGrid(input, rows, cols) && size >= 2 && i < rows && j < cols
    requires i < size / 2 || i + size > rows + size / 2
    ensures LatLonMinima(input, rows, cols, size, threshold)[i][j] == 0
  {
    LatLonMinimaCell(input, rows, cols, size, threshold, i, j);
    PolarWindow(input, rows, cols, size / 2, size, i, j);
  }

  /** Row q of the window around padded row i + h stays inside the frame. */
  lemma InteriorRow(i: nat, q: nat, h: nat, rows: nat, size: nat)
    requires q < size && h <= i && i + size <= rows + h
    ensures Wrap(i + h + q - h, rows + 2 * h) == i + q
    ensures h <= i + q < rows + h && Wrap(i + q - h, rows) == i + q - h
  {
  }

  function LiftRow(r: seq<int>): (l: seq<Cell>)
    ensures |l| == |r| && forall c :: 0 <= c < |r| ==> l[c] == Some(r[c])
  {
    seq(|r|, c requires 0 <= c < |r| => Some(r[c]))
  }

  /** The middle rows of the padded frame are the frame's rows. */
  lemma PaddedRows(input: Grid, rows: nat, cols: nat, h: nat)
    requires IsGrid(input, rows, cols)
    ensures forall p :: h <= p < rows + h ==> Padded(input, rows, cols, h)[p] == LiftRow(input[p - h])
  {
    forall p | h <= p < rows + h
      ensures Padded(input, rows, cols, h)[p] == LiftRow(input[p - h])
    {
    }
  }

  /** If the middle rows of `pg` hold `g`, then away from the outer `h`
      rows a window of `pg` is the same window of `g`, entry by entry. */
  lemma ShiftedWindowEntry(pg: seq<seq<Cell>>, g: Grid, rows: nat, cols: nat, h: nat, size: nat, i: nat, j: nat, t: nat)
    requires IsGrid(pg, rows + 2 * h, cols) && IsGrid(g, rows, cols) && rows > 0 && cols > 0
    requires forall p :: h <= p < rows + h ==> pg[p] == LiftRow(g[p - h])
    requires h == size / 2 && h <= i && i + size <= rows + h && t < size * size
    ensures Window(pg, rows + 2 * h, cols, i + h, j, size)[t] == Some(Window(g, rows, cols, i, j, size)[t])
  {
    UnflatIndex(size, t);
    NeighbourShift(pg, g, rows, cols, h, size, i, j, t / size, t % size);
  }

  lemma NeighbourShift(pg: seq<seq<Cell>>, g: Grid, rows: nat, cols: nat, h: nat, size: nat, i: nat, j: nat, q: int, dj: int)
    requires IsGrid(pg, rows + 2 * h, cols) && IsGrid(g, rows, cols) && rows > 0 && cols > 0
    requires forall p :: h <= p < rows + h ==> pg[p] == LiftRow(g[p - h])
    requires h == size / 2 && h <= i && i + size <= rows + h && 0 <= q < size
    ensures Neighbour(pg, rows + 2 * h, cols, i + h, j, size, q, dj) == Some(Neighbour(g, rows, cols, i, j, size, q, dj))
  {
    InteriorRow(i, q, h, rows, size);
    assert pg[i + q] == LiftRow(g[i + q - h]);
  }

  lemma ShiftedWindow(pg: seq<seq<Cell>>, g: Grid, rows: nat, cols: nat, h: nat, size: nat, i: nat, j: nat)
    requires IsGrid(pg, rows + 2 * h, cols) && IsGrid(g, rows, cols) && rows > 0 && cols > 0
    requires forall p :: h <= p < rows + h ==> pg[p] == LiftRow(g[p - h])
    requires h == size / 2 && h <= i && i + size <= rows + h
    ensures forall t :: 0 <= t < size * size ==>
      Window(pg, rows + 2 * h, cols, i + h, j, size)[t] == Some(Window(g, rows, cols, i, j, size)[t])
  {
    forall t | 0 <= t < size * size
      ensures Window(pg, rows + 2 * h, cols, i + h, j, size)[t] == Some(Window(g, rows, cols, i, j, size)[t])
    {
      ShiftedWindowEntry(pg, g, rows, cols, h, size, i, j, t);
    }
  }

  /** A window of valid cells read back as values. */
  lemma LiftedValues(pw: seq<Cell>, w: seq<int>)
    requires |pw| == |w| && forall t :: 0 <= t < |w| ==> pw[t] == Some(w[t])
    ensures AllValid(pw) && Values(pw) == w
  {
  }

  /** Away from the padding a padded window holds no NaN and its values
      are the frame's own window. */
  lemma InteriorWindow(input: Grid, rows: nat, cols: nat, size: nat, i: nat, j: nat)
    requires IsGrid(input, rows, cols) && size >= 2 && j < cols
    requires size / 2 <= i && i + size <= rows + size / 2
    ensures AllValid(PaddedWindow(input, rows, cols, size, i, j))
    ensures Values(PaddedWindow(input, rows, cols, size, i, j)) == Window(input, rows, cols, i, j, size)
  {
    PaddedRows(input, rows, cols, size / 2);
    ShiftedWindow(Padded(input, rows, cols, size / 2), input, rows, cols, size / 2, size, i, j);
    LiftedValues(Window(Padded(input, rows, cols, size / 2), rows + 2 * (size / 2), cols, i + size / 2, j, size),
                 Window(input, rows, cols, i, j, size));
  }

  /** Away from the padding the padded filter sees the frame's own window:
      a cell qualifies iff it is its window's minimum and, for a non-zero
      threshold, at most `size / 2` window values lie within `threshold`
      of it. */
  lemma LatLonInteriorRows(input: Grid, rows: nat, cols: nat, size: nat, threshold: int, i: nat, j: nat)
    requires IsGrid(input, rows, cols) && size >= 2 && j < cols
    requires size / 2 <= i && i + size <= rows + size / 2
    ensures var w := Window(input, rows, cols, i, j, size);
      LatLonMinima(input, rows, cols, size, threshold)[i][j] ==
      Bit(IsWindowMin(w, input[i][j]) && (threshold == 0 || CountWithin(w, input[i][j], threshold) <= size / 2))
  {
    InteriorCell(input, rows, cols, size, threshold, i, j);
    MinWithMarginSpec(Window(input, rows, cols, i, j, size), size, threshold);
    WindowOrigin(input, rows, cols, i, j, size);
  }

  lemma InteriorCell(input: Grid, rows: nat, cols: nat, size: nat, threshold: int, i: nat, j: nat)
    requires IsGrid(input, rows, cols) && size >= 2 && j < cols
    requires size / 2 <= i && i + size <= rows + size / 2
    ensures LatLonMinima(input, rows, cols, size, threshold)[i][j] == Bit(MinWithMargin(Window(input, rows, cols, i, j, size), size, threshold))
  {
    LatLonMinimaCell(input, rows, cols, size, threshold, i, j);
    InteriorQualifies(input, rows, cols, size, threshold, i, j);
  }

  lemma InteriorQualifies(input: Grid, rows: nat, cols: nat, size: nat, threshold: int, i: nat, j: nat)
    requires IsGrid(input, rows, cols) && size >= 2 && j < cols
    requires size / 2 <= i && i + size <= rows + size / 2
    ensures LatLonMinFunc(PaddedWindow(input, rows, cols, size, i, j), size, threshold) ==
      MinWithMargin(Window(input, rows, cols, i, j, size), size, threshold)
  {
    InteriorWindow(input, rows, cols, size, i, j);
  }

  lemma WindowOrigin(g: Grid, rows: nat, cols: nat, i: nat, j: nat, size: nat)
    requires IsGrid(g, rows, cols) && i < rows && j < cols && size >= 1
    ensures Origin(Window(g, rows, cols, i, j, size), size) == g[i][j]
  {
    WindowCenter(g, rows, cols, i, j, size);
  }

  /** `local_minima_filter_latlon`. There is no odd-size check. For a
      one-cell window the padding is empty and `padded_input[0:-0]` is an
      empty slice: assigning a frame of several rows to it raises
      ValueError, and a single-row frame broadcasts into it and leaves an
      empty result. */
  method LocalMinimaFilterLatLon(input: Grid, rows: nat, cols: nat, size: nat, threshold: int)
    returns (r: Result<Grid>)
    requires IsGrid(input, rows, cols) && rows > 0 && cols > 0 && size >= 1
    ensures size == 1 ==> r == (if rows == 1 then Ok([]) else Err(ValueError))
    ensures size >= 2 ==> r == Ok(LatLonMinima(input, rows, cols, size, threshold))
  {
    var h := size / 2;
    if h == 0 {
      if rows == 1 {
        return Ok([]);
      }
      return Err(ValueError);
    }
    var a := PadInput(input, rows, cols, h);
    var padded := Detection.Contents(a);
    var out := PaddedFilter(padded, rows + 2 * h, cols, size, threshold);
    StrippedFilter(input, rows, cols, size, threshold);
    return Ok(out[h .. rows + h]);
  }

  /** `detect_center_latlon`: minima, then Laplacian de-duplication with a
      5 x 5 window; `lap` is the Laplacian of `data`. */
  method DetectCenterLatLon(data: Grid, lap: Grid, rows: nat, cols: nat, size: nat, threshold: int)
    returns (r: Result<Grid>)
    requires IsGrid(data, rows, cols) && IsGrid(lap, rows, cols) && rows > 0 && cols > 0 && size >= 1
    ensures size == 1 ==> r == (if rows == 1 then Ok([]) else Err(ValueError))
    ensures size >= 2 ==> r == Ok(RemoveDupLaplace(lap, LatLonMinima(data, rows, cols, size, threshold), rows, cols, 5))
  {
    var minima := LocalMinimaFilterLatLon(data, rows, cols, size, threshold);
    if minima.Err? || size == 1 {
      return minima;
    }
    return Ok(RemoveDupLaplace(lap, minima.value, rows, cols, 5));
  }

  /** A cell is reported iff it is a padded-filter minimum, its Laplacian
      is non-zero, and no cell of its wrapped 5 x 5 window of the
      Laplacian times the minimum flags exceeds it; non-minima count as 0
      there. */
  lemma LatLonDetectedCells(data: Grid, lap: Grid, rows: nat, cols: nat, size: nat, threshold: int, i: nat, j: nat)
    requires IsGrid(data, rows, cols) && IsGrid(lap, rows, cols) && size >= 2 && i < rows && j < cols
    ensures var minima := LatLonMinima(data, rows, cols, size, threshold);
      RemoveDupLaplace(lap, minima, rows, cols, 5)[i][j] == 1 <==>
        minima[i][j] == 1 && lap[i][j] != 0 &&
        forall di, dj :: 0 <= di < 5 && 0 <= dj < 5 ==>
          Neighbour(Product(lap, minima, rows, cols), rows, cols, i, j, 5, di, dj) <= lap[i][j]
  {
    LatLonMinimaCell(data, rows, cols, size, threshold, i, j);
    RemoveDupKeeps(lap, LatLonMinima(data, rows, cols, size, threshold), rows, cols, 5, i, j);
  }
}
