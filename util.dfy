/** Small shared vocabulary: optional values, results carrying the Python
    exception a call would raise, and counting helpers. */
module Util {

  datatype Option<T> = None | Some(value: T)

  /** The Python exceptions the modelled code raises. */
  datatype Error = IndexError | TypeError | ValueError | RuntimeError | ZeroDivisionError

  datatype Result<T> = Ok(value: T) | Err(error: Error)

  /** Number of `true` entries of `flags`. */
  function CountTrue(flags: seq<bool>): (n: nat)
    ensures n <= |flags|
  {
    if flags == [] then 0
    else CountTrue(flags[..|flags| - 1]) + (if flags[|flags| - 1] then 1 else 0)
  }

  lemma CountTrueSnoc(flags: seq<bool>, b: bool)
    ensures CountTrue(flags + [b]) == CountTrue(flags) + (if b then 1 else 0)
  {
    assert (flags + [b])[..|flags|] == flags;
  }

  /** The integers lo, lo+1, ..., hi-1 (empty when hi <= lo). */
  function Range(lo: int, hi: int): (r: seq<int>)
    ensures |r| == if hi <= lo then 0 else hi - lo
    ensures forall i :: 0 <= i < |r| ==> r[i] == lo + i
    decreases hi - lo
  {
    if hi <= lo then [] else [lo] + Range(lo + 1, hi)
  }

  lemma {:induction false} RangeSplit(lo: int, mid: int, hi: int)
    requires lo <= mid <= hi
    ensures Range(lo, mid) + Range(mid, hi) == Range(lo, hi)
  {
    var a, b, c := Range(lo, mid), Range(mid, hi), Range(lo, hi);
    assert |a + b| == |c|;
    forall i | 0 <= i < |c| ensures (a + b)[i] == c[i] {
      if i < |a| { assert (a + b)[i] == a[i]; } else { assert (a + b)[i] == b[i - |a|]; }
    }
  }

  lemma CountTruePrefix(flags: seq<bool>, i: nat)
    requires i < |flags|
    ensures CountTrue(flags[..i + 1]) == CountTrue(flags[..i]) + (if flags[i] then 1 else 0)
  {
    assert flags[..i + 1] == flags[..i] + [flags[i]];
    CountTrueSnoc(flags[..i], flags[i]);
  }

  /** Counting over a longer prefix never counts fewer, and strictly more
      once it passes a `true`. */
  lemma {:induction false} CountTrueMono(flags: seq<bool>, a: nat, b: nat)
    requires a <= b <= |flags|
    ensures CountTrue(flags[..a]) <= CountTrue(flags[..b])
    ensures a < b && flags[a] ==> CountTrue(flags[..a]) < CountTrue(flags[..b])
    decreases b - a
  {
    if a < b {
      CountTruePrefix(flags, a);
      CountTrueMono(flags, a + 1, b);
    }
  }

  lemma {:induction false} CountTrueAll(flags: seq<bool>, i: nat)
    requires i <= |flags| && forall k :: 0 <= k < |flags| ==> flags[k]
    ensures CountTrue(flags[..i]) == i
  {
    if i > 0 {
      CountTruePrefix(flags, i - 1);
      CountTrueAll(flags, i - 1);
    }
  }

  /** No value occurs twice. */
  predicate Distinct(xs: seq<int>)
  {
    forall i, j :: 0 <= i < j < |xs| ==> xs[i] != xs[j]
  }

  /** No value occurs twice among the present entries. */
  predicate DistinctSome(xs: seq<Option<int>>)
  {
    forall i, j :: 0 <= i < j < |xs| && xs[i].Some? && xs[j].Some? ==> xs[i].value != xs[j].value
  }

  // ---------------------------------------------------------------------
  // Euclidean division facts

  lemma MulSign(a: int, s: int)
    requires s > 0
    ensures a >= 1 ==> a * s >= s
    ensures a <= -1 ==> a * s <= -s
  {
  }

  lemma MulPos(a: int, s: int)
    requires s > 0 && a * s > 0
    ensures a > 0
  {
    MulSign(a, s);
  }

  /** Division is determined by any quotient/remainder decomposition. */
  lemma ModUnique(x: int, s: int, q: int, m: int)
    requires s > 0 && 0 <= m < s && x == q * s + m
    ensures x % s == m && x / s == q
  {
    var q0, m0 := x / s, x % s;
    assert (q - q0) * s == m0 - m;
    MulSign(q - q0, s);
  }

  lemma ModAddMultiple(c: int, a: int, r: int)
    requires a > 0
    ensures (c * a + r) % a == r % a
  {
    assert r == (r / a) * a + r % a;
    assert c * a + r == (c + r / a) * a + r % a;
    ModUnique(c * a + r, a, c + r / a, r % a);
  }

  /** Reducing modulo a multiple first does not change the remainder. */
  lemma ModMod(x: int, a: int, b: int)
    requires a > 0 && b > 0
    ensures x % (a * b) % a == x % a
  {
    var q := x / (a * b);
    assert x == q * (a * b) + x % (a * b);
    assert q * (a * b) == (q * b) * a;
    ModAddMultiple(q * b, a, x % (a * b));
  }

  function Abs(x: int): nat
  {
    if x < 0 then -x else x
  }

  function Min(a: int, b: int): int
  {
    if a <= b then a else b
  }

  /** 2^k. */
  function Pow2(k: nat): (p: nat)
    ensures p >= 1
  {
    if k == 0 then 1 else 2 * Pow2(k - 1)
  }

  lemma {:induction false} Pow2Add(a: nat, b: nat)
    ensures Pow2(a + b) == Pow2(a) * Pow2(b)
  {
    if b > 0 {
      Pow2Add(a, b - 1);
      assert Pow2(a + b) == 2 * Pow2(a + b - 1);
    }
  }
}
