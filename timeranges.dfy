/** The time-axis arithmetic of the gridded detectors: validating and
    offsetting the frame request of `get_var`, and the partition of a
    time range into `num` contiguous pieces made by `split`. */
module TimeRanges {
  import opened Util

  /** A Python argument that may or may not be an `int`. */
  datatype PyValue = PyInt(i: int) | PyOther

  /** The `chart` argument of `get_var`. */
  datatype ChartArg = NoChart | IntChart(c: int) | TupleChart(items: seq<PyValue>) | OtherChart

  /** Frames of the file variable that `get_var` reads, in file
      coordinates: one index, a Python slice, or the whole variable. */
  datatype Request = Index(i: int) | Slice(lo: int, hi: int) | Everything

  predicate EmptyRange(trange: Option<(int, int)>)
  {
    trange.Some? && trange.value.0 >= trange.value.1
  }

  /** The checks and offsets of `get_var` before it touches the file:
      `Ok(None)` for an empty time range or an empty tuple chart, a
      TypeError for a chart of the wrong shape, an IndexError for a chart
      outside the time range, and otherwise the request shifted by
      `trange[0]`. */
  function GetVarCheck(trange: Option<(int, int)>, chart: ChartArg): (r: Result<Option<Request>>)
    ensures EmptyRange(trange) ==> r == Ok(None)
    ensures r.Err? ==> r.error == TypeError || r.error == IndexError
    ensures r.Err? && r.error == IndexError ==> trange.Some?
    ensures chart.IntChart? && trange.Some? && !EmptyRange(trange) ==>
      (r.Ok? <==> 0 <= chart.c < trange.value.1 - trange.value.0)
    ensures trange.Some? && !EmptyRange(trange) && r.Ok? && r.value.Some? ==>
      var (t0, t1) := trange.value;
      match r.value.value
      case Index(i) => t0 <= i < t1
      case Slice(lo, hi) => t0 <= lo < hi <= t1
      case Everything => chart.NoChart?
  {
    if EmptyRange(trange) then Ok(None)
    else if chart.OtherChart? then Err(TypeError)
    else if chart.TupleChart? && (|chart.items| != 2 || chart.items[0].PyOther? || chart.items[1].PyOther?) then
      Err(TypeError)
    else if trange.None? then
      Ok(Some(match chart
        case NoChart => Everything
        case IntChart(c) => Index(c)
        case TupleChart(items) => Slice(items[0].i, items[1].i)))
    else
      var (t0, t1) := trange.value;
      match chart
      case NoChart => Ok(Some(Everything))
      case IntChart(c) =>
        if c < 0 || c >= t1 - t0 then Err(IndexError) else Ok(Some(Index(t0 + c)))
      case TupleChart(items) =>
        var (a, b) := (items[0].i, items[1].i);
        if a == b then Ok(None)
        else if a > b then Err(IndexError)
        else if a < 0 || a > t1 - t0 then Err(IndexError)
        else if b < 0 || b > t1 - t0 then Err(IndexError)
        else Ok(Some(Slice(t0 + a, t0 + b)))
  }

  /** With a time range set, every non-empty tuple chart inside it is
      accepted and read at an offset of `trange[0]`. */
  lemma GetVarAcceptsInside(t0: int, t1: int, a: int, b: int)
    requires t0 < t1 && 0 <= a < b <= t1 - t0
    ensures GetVarCheck(Some((t0, t1)), TupleChart([PyInt(a), PyInt(b)])) == Ok(Some(Slice(t0 + a, t0 + b)))
  {
  }

  /** Python's slice bound normalisation for a sequence of length n. */
  function SliceBound(x: int, n: nat): (b: nat)
    ensures b <= n
    ensures 0 <= x <= n ==> b == x
  {
    if x < 0 then (if x + n < 0 then 0 else x + n) else if x > n then n else x
  }

  /** `s[lo:hi]` with Python semantics. */
  function PySlice<T>(s: seq<T>, lo: int, hi: int): (r: seq<T>)
    ensures 0 <= lo <= hi <= |s| ==> r == s[lo..hi]
  {
    var (a, b) := (SliceBound(lo, |s|), SliceBound(hi, |s|));
    if a < b then s[a..b] else []
  }

  /** Offset of the start of range i of `split`: `i*c + r*i//num` with
      c = len // num and r = len % num. */
  function SplitOffset(len: int, num: nat, i: int): int
    requires num > 0
  {
    i * (len / num) + (len % num) * i / num
  }

  /** The `num` ranges of `split`: range i runs from offset i to offset
      i + 1. */
  function SplitRanges(tstart: int, len: int, num: nat): (rs: seq<(int, int)>)
    requires num > 0
    ensures |rs| == num
  {
    seq(num, i requires 0 <= i < num => (tstart + SplitOffset(len, num, i), tstart + SplitOffset(len, num, i + 1)))
  }

  /** Adding d < n to a non-negative numerator moves the quotient by at most one. */
  lemma DivStep(a: nat, d: nat, n: nat)
    requires 0 < n && d < n
    ensures (a + d) / n == a / n || (a + d) / n == a / n + 1
  {
    var q, m := a / n, a % n;
    if m + d < n {
      Util.ModUnique(a + d, n, q, m + d);
    } else {
      Util.ModUnique(a + d, n, q + 1, m + d - n);
    }
  }

  /** Consecutive offsets differ by c or c + 1. */
  lemma OffsetStep(len: int, num: nat, i: nat)
    requires num > 0
    ensures SplitOffset(len, num, i + 1) - SplitOffset(len, num, i) == len / num ||
            SplitOffset(len, num, i + 1) - SplitOffset(len, num, i) == len / num + 1
  {
    var c, r := len / num, len % num;
    assert r * (i + 1) == r * i + r;
    assert (i + 1) * c == i * c + c;
    DivStep(r * i, r, num);
  }

  /** The offsets run from 0 to len. */
  lemma OffsetEnds(len: int, num: nat)
    requires num > 0
    ensures SplitOffset(len, num, 0) == 0 && SplitOffset(len, num, num) == len
  {
    var c, r := len / num, len % num;
    assert len == num * c + r;
    assert r * num / num == r by {
      Util.ModUnique(r * num, num, r, 0);
    }
  }

  /** The ranges tile `[tstart, tstart + len)` in order: the first starts at
      `tstart`, each ends where the next begins, the last ends at
      `tstart + len`, and each has length c or c + 1. */
  lemma SplitTiles(tstart: int, len: int, num: nat)
    requires num > 0
    ensures var rs := SplitRanges(tstart, len, num);
      rs[0].0 == tstart && rs[num - 1].1 == tstart + len &&
      (forall i :: 0 <= i < num - 1 ==> rs[i].1 == rs[i + 1].0) &&
      (forall i :: 0 <= i < num ==> rs[i].1 - rs[i].0 == len / num || rs[i].1 - rs[i].0 == len / num + 1)
  {
    OffsetEnds(len, num);
    forall i: nat | i < num
      ensures SplitOffset(len, num, i + 1) - SplitOffset(len, num, i) == len / num ||
              SplitOffset(len, num, i + 1) - SplitOffset(len, num, i) == len / num + 1
    {
      OffsetStep(len, num, i);
    }
  }

  /** `split` on a non-positive count: no ranges for a negative count
      (`range(num)` is empty), ZeroDivisionError for zero. */
  function SplitCount(tstart: int, len: int, num: int): (r: Result<seq<(int, int)>>)
    ensures num < 0 ==> r == Ok([])
    ensures num == 0 ==> r == Err(ZeroDivisionError)
    ensures num > 0 ==> r.Ok? && |r.value| == num
  {
    if num < 0 then Ok([]) else if num == 0 then Err(ZeroDivisionError) else Ok(SplitRanges(tstart, len, num))
  }
}
