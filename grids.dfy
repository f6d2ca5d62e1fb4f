/** Integer grids with periodic ("wrap") neighbourhoods, and the order
    statistics the extremum tests read from a neighbourhood. A frame of
    the data variable is a `rows` x `cols` grid; the neighbourhood of a
    cell is what scipy's `generic_filter` hands its callback: the k x k
    cells at row/column offsets -(k/2) .. k-1-k/2, wrapped on both axes,
    in row-major order. */
module Grids {
  import Util

  /** `minmaxmode`. */
  datatype Mode = Min | Max

  type Grid = seq<seq<int>>

  predicate IsGrid<T>(g: seq<seq<T>>, rows: nat, cols: nat)
  {
    |g| == rows && forall i :: 0 <= i < rows ==> |g[i]| == cols
  }

  /** Periodic index. */
  function Wrap(i: int, n: nat): (w: nat)
    requires n > 0
    ensures w < n
    ensures 0 <= i < n ==> w == i
  {
    i % n
  }

  /** Wrapping, shifting and wrapping again is shifting and wrapping. */
  lemma WrapShift(x: int, d: int, n: nat)
    requires n > 0
    ensures Wrap(Wrap(x, n) + d, n) == Wrap(x + d, n)
  {
    assert Wrap(x, n) + d == -(x / n) * n + (x + d);
    Util.ModAddMultiple(-(x / n), n, x + d);
  }

  /** The cell at offset (di - k/2, dj - k/2) from (i, j), wrapped. */
  function Neighbour<T>(g: seq<seq<T>>, rows: nat, cols: nat, i: int, j: int, k: nat, di: int, dj: int): T
    requires IsGrid(g, rows, cols) && rows > 0 && cols > 0
  {
    g[Wrap(i + di - k / 2, rows)][Wrap(j + dj - k / 2, cols)]
  }

  /** The k x k neighbourhood of cell (i, j), flattened row by row. */
  function Window<T>(g: seq<seq<T>>, rows: nat, cols: nat, i: int, j: int, k: nat): (buf: seq<T>)
    requires IsGrid(g, rows, cols) && rows > 0 && cols > 0
    ensures |buf| == k * k
  {
    seq(k * k, t requires 0 <= t < k * k => Neighbour(g, rows, cols, i, j, k, t / k, t % k))
  }

  /** Flattened position of window offset (di, dj), and back. */
  lemma FlatIndex(k: nat, di: nat, dj: nat)
    requires di < k && dj < k
    ensures di * k + dj < k * k
    ensures (di * k + dj) / k == di && (di * k + dj) % k == dj
  {
    assert (k - di) * k == k * k - di * k;
    Util.MulSign(k - di, k);
    Util.ModUnique(di * k + dj, k, di, dj);
  }

  lemma UnflatIndex(k: nat, t: nat)
    requires t < k * k
    ensures k > 0 && 0 <= t / k < k && t % k < k && t == (t / k) * k + t % k
  {
    var q := t / k;
    assert (k - q) * k == k * k - q * k;
    Util.MulPos(k - q, k);
  }

  lemma HalfInSquare(k: nat)
    requires k >= 1
    ensures k / 2 < k * k
  {
    Util.MulSign(k, k);
  }

  /** Window entry at the flattened position of offset (di, dj). */
  lemma WindowAt<T>(g: seq<seq<T>>, rows: nat, cols: nat, i: int, j: int, k: nat, di: nat, dj: nat)
    requires IsGrid(g, rows, cols) && rows > 0 && cols > 0 && di < k && dj < k
    ensures di * k + dj < k * k
    ensures Window(g, rows, cols, i, j, k)[di * k + dj] == Neighbour(g, rows, cols, i, j, k, di, dj)
  {
    FlatIndex(k, di, dj);
  }

  /** Window entry t is the neighbour at some offset (di, dj) of the
      window, namely (t / k, t % k). */
  lemma WindowEntry<T>(g: seq<seq<T>>, rows: nat, cols: nat, i: int, j: int, k: nat, t: nat) returns (di: nat, dj: nat)
    requires IsGrid(g, rows, cols) && rows > 0 && cols > 0 && t < k * k
    ensures di < k && dj < k
    ensures Window(g, rows, cols, i, j, k)[t] == Neighbour(g, rows, cols, i, j, k, di, dj)
  {
    UnflatIndex(k, t);
    di, dj := t / k, t % k;
  }

  /** Position of the window's own cell: `search_window[k//2, k//2]`,
      which for odd k is also `buffer[(k*k)//2]`. */
  function OriginIndex(k: nat): (o: nat)
    requires k >= 1
    ensures o < k * k && o / k == k / 2 && o % k == k / 2
    ensures k % 2 == 1 ==> o == (k * k) / 2
  {
    FlatIndex(k, k / 2, k / 2);
    assert k % 2 == 1 ==> k * k == 2 * ((k / 2) * k + k / 2) + 1 by {
      if k % 2 == 1 {
        var h := k / 2;
        assert k == 2 * h + 1;
        assert k * k == (2 * h + 1) * (2 * h + 1);
      }
    }
    (k / 2) * k + k / 2
  }

  lemma WindowCenter<T>(g: seq<seq<T>>, rows: nat, cols: nat, i: nat, j: nat, k: nat)
    requires IsGrid(g, rows, cols) && i < rows && j < cols && k >= 1
    ensures Window(g, rows, cols, i, j, k)[OriginIndex(k)] == g[i][j]
  {
  }

  function SeqMin(s: seq<int>): (m: int)
    requires |s| > 0
    ensures m in s && forall t :: 0 <= t < |s| ==> m <= s[t]
  {
    if |s| == 1 then s[0]
    else
      var m' := SeqMin(s[1..]);
      if s[0] <= m' then s[0] else m'
  }

  function SeqMax(s: seq<int>): (m: int)
    requires |s| > 0
    ensures m in s && forall t :: 0 <= t < |s| ==> s[t] <= m
  {
    if |s| == 1 then s[0]
    else
      var m' := SeqMax(s[1..]);
      if s[0] >= m' then s[0] else m'
  }

  /** How many entries of s are at most x. */
  function CountLe(s: seq<int>, x: int): (n: nat)
    ensures n <= |s|
  {
    if s == [] then 0 else (if s[0] <= x then 1 else 0) + CountLe(s[1..], x)
  }

  predicate SortedSeq(s: seq<int>)
  {
    forall a, b :: 0 <= a < b < |s| ==> s[a] <= s[b]
  }

  /** Inserts x before the first entry of t that is not below it. */
  function Insert(x: int, t: seq<int>): (r: seq<int>)
    ensures |r| == |t| + 1
  {
    if t == [] then [x]
    else if x <= t[0] then [x] + t
    else [t[0]] + Insert(x, t[1..])
  }

  /** Python's `sorted`, as an insertion sort. */
  function Sort(s: seq<int>): (r: seq<int>)
    ensures |r| == |s|
  {
    if s == [] then [] else Insert(s[0], Sort(s[1..]))
  }

  /** Inserting x adds one entry at most y exactly when x is at most y. */
  lemma {:induction false} InsertCount(x: int, t: seq<int>, y: int)
    ensures CountLe(Insert(x, t), y) == CountLe(t, y) + (if x <= y then 1 else 0)
  {
    if t == [] {
      assert [x][1..] == [];
    } else if x <= t[0] {
      assert ([x] + t)[1..] == t;
    } else {
      InsertCount(x, t[1..], y);
      assert ([t[0]] + Insert(x, t[1..]))[1..] == Insert(x, t[1..]);
    }
  }

  /** Inserting a value no smaller than m among values no smaller than m
      leaves every value no smaller than m. */
  lemma {:induction false} InsertAbove(x: int, t: seq<int>, m: int)
    requires m <= x && forall k :: 0 <= k < |t| ==> m <= t[k]
    ensures forall k :: 0 <= k < |Insert(x, t)| ==> m <= Insert(x, t)[k]
  {
    if t != [] && x > t[0] {
      InsertAbove(x, t[1..], m);
    }
  }

  /** Insertion keeps a sequence sorted. */
  lemma {:induction false} InsertSorted(x: int, t: seq<int>)
    requires SortedSeq(t)
    ensures SortedSeq(Insert(x, t))
  {
    if t != [] && x > t[0] {
      InsertSorted(x, t[1..]);
      InsertAbove(x, t[1..], t[0]);
    }
  }

  /** `sorted(s)` is sorted. */
  lemma {:induction false} SortSorted(s: seq<int>)
    ensures SortedSeq(Sort(s))
  {
    if s != [] {
      SortSorted(s[1..]);
      InsertSorted(s[0], Sort(s[1..]));
    }
  }

  /** `sorted(s)` holds the entries of s with their multiplicities: as many
      entries of it as of s are at most y, for every y. */
  lemma {:induction false} SortCount(s: seq<int>, y: int)
    ensures CountLe(Sort(s), y) == CountLe(s, y)
  {
    if s != [] {
      SortCount(s[1..], y);
      InsertCount(s[0], Sort(s[1..]), y);
    }
  }

  lemma {:induction false} CountLeNone(s: seq<int>, x: int)
    requires forall k :: 0 <= k < |s| ==> s[k] > x
    ensures CountLe(s, x) == 0
  {
    if s != [] {
      CountLeNone(s[1..], x);
    }
  }

  lemma {:induction false} CountLeSome(s: seq<int>, x: int)
    ensures CountLe(s, x) > 0 <==> exists k :: 0 <= k < |s| && s[k] <= x
  {
    if s != [] {
      CountLeSome(s[1..], x);
      if exists k :: 0 <= k < |s[1..]| && s[1..][k] <= x {
        var k :| 0 <= k < |s[1..]| && s[1..][k] <= x;
        assert s[k + 1] <= x;
      }
      if exists k :: 0 <= k < |s| && s[k] <= x {
        var k :| 0 <= k < |s| && s[k] <= x;
        if k > 0 {
          assert s[1..][k - 1] <= x;
        }
      }
    }
  }

  /** In a sorted sequence, entry k is at most x iff more than k entries
      are at most x. */
  lemma {:induction false} SortedKth(r: seq<int>, k: nat, x: int)
    requires SortedSeq(r) && k < |r|
    ensures r[k] <= x <==> CountLe(r, x) > k
  {
    if r[0] > x {
      CountLeNone(r, x);
    } else if k > 0 {
      SortedKth(r[1..], k - 1, x);
    }
  }

  /** `sorted(s)[k]` is at most x iff more than k entries of s are. */
  lemma OrderStatistic(s: seq<int>, k: nat, x: int)
    requires k < |s|
    ensures Sort(s)[k] <= x <==> CountLe(s, x) > k
  {
    SortSorted(s);
    SortCount(s, x);
    SortedKth(Sort(s), k, x);
  }

  /** How many entries of s lie at most `threshold` above c. */
  function CountWithin(s: seq<int>, c: int, threshold: int): (n: nat)
    ensures n <= |s|
  {
    if s == [] then 0 else (if s[0] - c <= threshold then 1 else 0) + CountWithin(s[1..], c, threshold)
  }

  lemma {:induction false} CountWithinLe(s: seq<int>, c: int, threshold: int, x: int)
    requires x == c + threshold
    ensures CountWithin(s, c, threshold) == CountLe(s, x)
  {
    if s != [] {
      CountWithinLe(s[1..], c, threshold, x);
    }
  }

  /** `sorted(s)[k] - c > threshold` iff at most k entries of s lie within
      `threshold` above c. */
  lemma MarginAbove(s: seq<int>, k: nat, c: int, threshold: int)
    requires k < |s|
    ensures Sort(s)[k] - c > threshold <==> CountWithin(s, c, threshold) <= k
  {
    var x := c + threshold;
    CountWithinLe(s, c, threshold, x);
    OrderStatistic(s, k, x);
  }
}
