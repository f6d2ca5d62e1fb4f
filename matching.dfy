/** The mutual-nearest-neighbour matching shared by every linker
    (`match_center` in src/pystormtracker/simple/linker.py,
    src/pystormtracker/linker.py and pystormtracker/linker.py).

    Ends are numbered 0..|d|-1 (positions in `tail`), new centers 0..nC-1;
    d[e][c] is the distance from end e to center c. The dictionaries
    `dforward[e]` and `dbackward[c]` always map a key to d[e][c], so the model
    keeps their key sets only. Python's `min(db, key=db.get)` returns the
    first minimal key in insertion order, and keys are inserted in ascending
    order, so it picks the lowest index among the minimal ones: `FirstMin`. */
module Matching {
  import opened Util

  /** Every row of `d` has one entry per center. */
  ghost predicate IsMatrix(d: seq<seq<int>>, nC: nat)
  {
    forall e :: 0 <= e < |d| ==> |d[e]| == nC
  }

  /** The lowest key k >= from in `keys` whose cost is minimal among the keys
      in [from, |costs|). */
  function FirstMinFrom(costs: seq<int>, keys: set<nat>, from: nat): (r: Option<nat>)
    ensures r.Some? ==> from <= r.value < |costs| && r.value in keys
    ensures r.Some? ==> forall j :: from <= j < |costs| && j in keys ==> costs[r.value] <= costs[j]
    ensures r.Some? ==> forall j :: from <= j < r.value && j in keys ==> costs[r.value] < costs[j]
    ensures r.None? ==> forall j :: from <= j < |costs| ==> j !in keys
    decreases |costs| - from
  {
    if from >= |costs| then None
    else
      var rest := FirstMinFrom(costs, keys, from + 1);
      if from !in keys then rest
      else if rest.None? || costs[from] <= costs[rest.value] then Some(from)
      else rest
  }

  /** `min(keys, key=costs)` over a dict filled in ascending key order. */
  function FirstMin(costs: seq<int>, keys: set<nat>): Option<nat>
  {
    FirstMinFrom(costs, keys, 0)
  }

  /** The three defining properties of `FirstMin` pin it down. */
  lemma FirstMinUnique(costs: seq<int>, keys: set<nat>, r: nat)
    requires r < |costs| && r in keys
    requires forall j :: j < |costs| && j in keys ==> costs[r] <= costs[j]
    requires forall j :: j < r && j in keys ==> costs[r] < costs[j]
    ensures FirstMin(costs, keys) == Some(r)
  {
  }

  /** Column c of the distance matrix: the distances of every end to center c. */
  function Column(d: seq<seq<int>>, c: nat): (col: seq<int>)
    requires forall e :: 0 <= e < |d| ==> c < |d[e]|
    ensures |col| == |d| && forall e :: 0 <= e < |d| ==> col[e] == d[e][c]
  {
    seq(|d|, e requires 0 <= e < |d| => d[e][c])
  }

  /** End e and center c are still candidates for each other: closer than the
      threshold, the center is unmatched and the end is not taken. */
  ghost predicate Live(d: seq<seq<int>>, thr: int, m: seq<Option<nat>>, e: nat, c: nat)
    requires e < |d| && c < |m| && c < |d[e]|
  {
    d[e][c] < thr && m[c].None? && Some(e) !in m
  }

  ghost function LiveEnds(d: seq<seq<int>>, thr: int, m: seq<Option<nat>>, c: nat): set<nat>
    requires IsMatrix(d, |m|) && c < |m|
  {
    set e: nat | e < |d| && Live(d, thr, m, e, c)
  }

  ghost function LiveCenters(d: seq<seq<int>>, thr: int, m: seq<Option<nat>>, e: nat): set<nat>
    requires IsMatrix(d, |m|) && e < |d|
  {
    set c: nat | c < |m| && Live(d, thr, m, e, c)
  }

  /** One iteration of the inner `for i, db in enumerate(dbackward)` loop:
      center i takes its nearest live end if that end's nearest live center
      is i. */
  ghost function Step(d: seq<seq<int>>, thr: int, m: seq<Option<nat>>, i: nat): (r: seq<Option<nat>>)
    requires IsMatrix(d, |m|) && i < |m|
    ensures |r| == |m|
  {
    if m[i].Some? then m
    else match FirstMin(Column(d, i), LiveEnds(d, thr, m, i))
      case None => m
      case Some(e) =>
        if FirstMin(d[e], LiveCenters(d, thr, m, e)) == Some(i) then m[i := Some(e)] else m
  }

  /** The state after the first k iterations of one pass. */
  ghost function PassTo(d: seq<seq<int>>, thr: int, m: seq<Option<nat>>, k: nat): (r: seq<Option<nat>>)
    requires IsMatrix(d, |m|) && k <= |m|
    ensures |r| == |m|
  {
    if k == 0 then m else Step(d, thr, PassTo(d, thr, m, k - 1), k - 1)
  }

  ghost function Unmatched(m: seq<Option<nat>>): set<nat>
  {
    set c: nat | c < |m| && m[c].None?
  }

  /** m2 keeps every match of m1. */
  ghost predicate Extends(m1: seq<Option<nat>>, m2: seq<Option<nat>>)
  {
    |m1| == |m2| && forall c :: 0 <= c < |m1| && m1[c].Some? ==> m2[c] == m1[c]
  }

  /** Repeat passes until one makes no match (the `while True` loop). */
  ghost function Fix(d: seq<seq<int>>, thr: int, m: seq<Option<nat>>): (r: seq<Option<nat>>)
    requires IsMatrix(d, |m|)
    ensures |r| == |m|
    decreases |Unmatched(m)|
  {
    var p := PassTo(d, thr, m, |m|);
    if p == m then m
    else
      PassShrinks(d, thr, m);
      Fix(d, thr, p)
  }

  function NoMatches(nC: nat): (m: seq<Option<nat>>)
    ensures |m| == nC && forall c :: 0 <= c < nC ==> m[c].None?
  {
    seq(nC, _ => None)
  }

  /** The matching `match_center` computes, as end positions. */
  ghost function MatchSpec(d: seq<seq<int>>, thr: int, nC: nat): (r: seq<Option<nat>>)
    requires IsMatrix(d, nC)
    ensures |r| == nC
  {
    Fix(d, thr, NoMatches(nC))
  }

  // ---------------------------------------------------------------------
  // Properties of the specification

  /** Matches only ever go to a free end strictly within the threshold, and
      no end is used twice. */
  ghost predicate Sound(d: seq<seq<int>>, thr: int, m: seq<Option<nat>>)
    requires IsMatrix(d, |m|)
  {
    && (forall c :: 0 <= c < |m| && m[c].Some? ==> m[c].value < |d| && d[m[c].value][c] < thr)
    && (forall c1, c2 :: 0 <= c1 < |m| && 0 <= c2 < |m| && c1 != c2 && m[c1].Some? && m[c2].Some?
          ==> m[c1].value != m[c2].value)
  }

  lemma SomeInUpdate(m: seq<Option<nat>>, i: nat, e: nat, x: nat)
    requires i < |m| && m[i].None?
    ensures Some(x) in m[i := Some(e)] <==> Some(x) in m || x == e
  {
    var m' := m[i := Some(e)];
    if Some(x) in m {
      var j :| 0 <= j < |m| && m[j] == Some(x);
      assert m'[j] == Some(x);
    }
    if x == e {
      assert m'[i] == Some(e);
    }
    if Some(x) in m' {
      var j :| 0 <= j < |m'| && m'[j] == Some(x);
      if j != i { assert m[j] == Some(x); }
    }
  }

  lemma StepSoundExtends(d: seq<seq<int>>, thr: int, m: seq<Option<nat>>, i: nat)
    requires IsMatrix(d, |m|) && i < |m| && Sound(d, thr, m)
    ensures Sound(d, thr, Step(d, thr, m, i)) && Extends(m, Step(d, thr, m, i))
    ensures Step(d, thr, m, i) == m || (m[i].None? && Step(d, thr, m, i)[i].Some?)
  {
    var r := Step(d, thr, m, i);
    if r != m {
      var e := r[i].value;
      assert r == m[i := Some(e)];
      assert e in LiveEnds(d, thr, m, i);
      assert Some(e) !in m;
      forall c | 0 <= c < |m| && c != i && m[c].Some?
        ensures m[c].value != e
      {
        assert m[c] in m;
      }
    }
  }

  lemma {:induction false} PassSoundExtends(d: seq<seq<int>>, thr: int, m: seq<Option<nat>>, k: nat)
    requires IsMatrix(d, |m|) && k <= |m| && Sound(d, thr, m)
    ensures Sound(d, thr, PassTo(d, thr, m, k)) && Extends(m, PassTo(d, thr, m, k))
  {
    if k > 0 {
      PassSoundExtends(d, thr, m, k - 1);
      StepSoundExtends(d, thr, PassTo(d, thr, m, k - 1), k - 1);
    }
  }

  lemma ExtendsUnmatched(m1: seq<Option<nat>>, m2: seq<Option<nat>>)
    requires Extends(m1, m2)
    ensures Unmatched(m2) <= Unmatched(m1)
    ensures m1 != m2 ==> Unmatched(m2) < Unmatched(m1)
  {
    if m1 != m2 {
      var c :| 0 <= c < |m1| && m1[c] != m2[c];
      assert c in Unmatched(m1) && c !in Unmatched(m2);
    }
  }

  lemma NoneSound(d: seq<seq<int>>, thr: int, nC: nat)
    requires IsMatrix(d, nC)
    ensures Sound(d, thr, NoMatches(nC))
  {
  }

  /** Passes only add matches, and a pass that changes anything matches at
      least one more center: the loop terminates. */
  lemma PassShrinks(d: seq<seq<int>>, thr: int, m: seq<Option<nat>>)
    requires IsMatrix(d, |m|)
    ensures PassTo(d, thr, m, |m|) != m ==> |Unmatched(PassTo(d, thr, m, |m|))| < |Unmatched(m)|
  {
    PassExtends(d, thr, m, |m|);
    var p := PassTo(d, thr, m, |m|);
    ExtendsUnmatched(m, p);
    if p != m {
      var u, v := Unmatched(p), Unmatched(m);
      var c :| c in v && c !in u;
      SubsetCard(u, v - {c});
    }
  }

  lemma {:induction false} SubsetCard(a: set<nat>, b: set<nat>)
    requires a <= b
    ensures |a| <= |b|
    decreases |a|
  {
    if a != {} {
      var x :| x in a;
      SubsetCard(a - {x}, b - {x});
    }
  }

  lemma {:induction false} PassExtends(d: seq<seq<int>>, thr: int, m: seq<Option<nat>>, k: nat)
    requires IsMatrix(d, |m|) && k <= |m|
    ensures Extends(m, PassTo(d, thr, m, k))
  {
    if k > 0 {
      PassExtends(d, thr, m, k - 1);
      var p := PassTo(d, thr, m, k - 1);
      var r := Step(d, thr, p, k - 1);
      if r != p {
        assert r == p[k - 1 := r[k - 1]];
      }
    }
  }

  lemma {:induction false} FixSoundExtends(d: seq<seq<int>>, thr: int, m: seq<Option<nat>>)
    requires IsMatrix(d, |m|) && Sound(d, thr, m)
    ensures Sound(d, thr, Fix(d, thr, m)) && Extends(m, Fix(d, thr, m))
    decreases |Unmatched(m)|
  {
    var p := PassTo(d, thr, m, |m|);
    if p != m {
      PassSoundExtends(d, thr, m, |m|);
      PassShrinks(d, thr, m);
      FixSoundExtends(d, thr, p);
    }
  }

  /** `match_center` is one-to-one and respects the strict threshold: every
      matched center has a distinct end closer than `thr`. */
  lemma MatchSpecSound(d: seq<seq<int>>, thr: int, nC: nat)
    requires IsMatrix(d, nC)
    ensures forall c :: 0 <= c < nC && MatchSpec(d, thr, nC)[c].Some? ==>
      MatchSpec(d, thr, nC)[c].value < |d| && d[MatchSpec(d, thr, nC)[c].value][c] < thr
    ensures forall c1, c2 ::
      (0 <= c1 < nC && 0 <= c2 < nC && c1 != c2 &&
       MatchSpec(d, thr, nC)[c1].Some? && MatchSpec(d, thr, nC)[c2].Some?) ==>
        MatchSpec(d, thr, nC)[c1].value != MatchSpec(d, thr, nC)[c2].value
  {
    NoneSound(d, thr, nC);
    FixSoundExtends(d, thr, NoMatches(nC));
  }

  /** A center no end comes within the threshold of stays unmatched. */
  lemma FarCenterUnmatched(d: seq<seq<int>>, thr: int, nC: nat, c: nat)
    requires IsMatrix(d, nC) && c < nC
    requires forall e :: 0 <= e < |d| ==> d[e][c] >= thr
    ensures MatchSpec(d, thr, nC)[c].None?
  {
    MatchSpecSound(d, thr, nC);
  }

  lemma StepExtends(d: seq<seq<int>>, thr: int, m: seq<Option<nat>>, i: nat)
    requires IsMatrix(d, |m|) && i < |m|
    ensures Extends(m, Step(d, thr, m, i))
  {
    var r := Step(d, thr, m, i);
    if r != m { assert r == m[i := r[i]]; }
  }

  lemma ExtendsAntisym(m1: seq<Option<nat>>, m2: seq<Option<nat>>)
    requires Extends(m1, m2) && Extends(m2, m1)
    ensures m1 == m2
  {
    forall c | 0 <= c < |m1| ensures m1[c] == m2[c] {
      if m1[c].None? && m2[c].Some? { assert m1[c] == m2[c]; }
    }
  }

  lemma {:induction false} PassFixedStep(d: seq<seq<int>>, thr: int, m: seq<Option<nat>>, k: nat)
    requires IsMatrix(d, |m|) && k <= |m|
    requires PassTo(d, thr, m, k) == m
    ensures forall i :: 0 <= i < k ==> Step(d, thr, m, i) == m
  {
    if k > 0 {
      var p := PassTo(d, thr, m, k - 1);
      PassExtends(d, thr, m, k - 1);
      StepExtends(d, thr, p, k - 1);
      ExtendsAntisym(m, p);
      PassFixedStep(d, thr, m, k - 1);
    }
  }

  lemma {:induction false} FixIsStable(d: seq<seq<int>>, thr: int, m: seq<Option<nat>>)
    requires IsMatrix(d, |m|)
    ensures forall i :: 0 <= i < |m| ==> Step(d, thr, Fix(d, thr, m), i) == Fix(d, thr, m)
    decreases |Unmatched(m)|
  {
    var p := PassTo(d, thr, m, |m|);
    if p == m {
      PassFixedStep(d, thr, m, |m|);
    } else {
      PassShrinks(d, thr, m);
      FixIsStable(d, thr, p);
    }
  }

  /** At the fixed point no unmatched center has a live end that would take
      it: for each, either no end is in range or its nearest end prefers
      another center. */
  lemma MatchSpecMaximal(d: seq<seq<int>>, thr: int, nC: nat, c: nat)
    requires IsMatrix(d, nC) && c < nC
    requires MatchSpec(d, thr, nC)[c].None?
    ensures var m := MatchSpec(d, thr, nC);
      match FirstMin(Column(d, c), LiveEnds(d, thr, m, c))
      case None => true
      case Some(e) => FirstMin(d[e], LiveCenters(d, thr, m, e)) != Some(c)
  {
    var m := MatchSpec(d, thr, nC);
    FixIsStable(d, thr, NoMatches(nC));
    assert Step(d, thr, m, c) == m;
  }

  /** Once matched, a center stays matched to the same end. */
  lemma {:induction false} FixExtends(d: seq<seq<int>>, thr: int, m: seq<Option<nat>>)
    requires IsMatrix(d, |m|)
    ensures Extends(m, Fix(d, thr, m))
    decreases |Unmatched(m)|
  {
    var p := PassTo(d, thr, m, |m|);
    if p != m {
      PassExtends(d, thr, m, |m|);
      PassShrinks(d, thr, m);
      FixExtends(d, thr, p);
    }
  }

  /** e and c are strictly each other's nearest, within the threshold. */
  ghost predicate StrictMutualNearest(d: seq<seq<int>>, thr: int, nC: nat, e: nat, c: nat)
    requires IsMatrix(d, nC)
  {
    && e < |d| && c < nC && d[e][c] < thr
    && (forall e' :: 0 <= e' < |d| && e' != e ==> d[e][c] < d[e'][c])
    && (forall c' :: 0 <= c' < nC && c' != c ==> d[e][c] < d[e][c'])
  }

  lemma {:induction false} MutualPairSurvivesPass(d: seq<seq<int>>, thr: int, nC: nat, e: nat, c: nat, k: nat)
    requires IsMatrix(d, nC) && StrictMutualNearest(d, thr, nC, e, c) && k <= c
    ensures var p := PassTo(d, thr, NoMatches(nC), k);
      p[c].None? && Some(e) !in p
  {
    if k > 0 {
      MutualPairSurvivesPass(d, thr, nC, e, c, k - 1);
      var p := PassTo(d, thr, NoMatches(nC), k - 1);
      var r := Step(d, thr, p, k - 1);
      if r != p {
        var e' := r[k - 1].value;
        assert r == p[k - 1 := Some(e')];
        if e' == e {
          // e would have to prefer center k-1 over c, but c is closer and live
          assert false;
        }
        SomeInUpdate(p, k - 1, e', e);
      }
    }
  }

  /** Nearest pairs are never crossed: a strictly mutual-nearest pair within
      the threshold is always matched together. */
  lemma MutualNearestMatched(d: seq<seq<int>>, thr: int, nC: nat, e: nat, c: nat)
    requires IsMatrix(d, nC) && StrictMutualNearest(d, thr, nC, e, c)
    ensures MatchSpec(d, thr, nC)[c] == Some(e)
  {
    var m0 := NoMatches(nC);
    MutualPairSurvivesPass(d, thr, nC, e, c, c);
    var p := PassTo(d, thr, m0, c);
    assert e in LiveEnds(d, thr, p, c);
    FirstMinUnique(Column(d, c), LiveEnds(d, thr, p, c), e);
    assert c in LiveCenters(d, thr, p, e);
    FirstMinUnique(d[e], LiveCenters(d, thr, p, e), c);
    var q := PassTo(d, thr, m0, c + 1);
    assert q[c] == Some(e);
    PassExtends(d, thr, q, nC - (c + 1));
    PassSplit(d, thr, m0, c + 1);
    var full := PassTo(d, thr, m0, nC);
    assert full[c] == Some(e);
    FixExtends(d, thr, m0);
    if full != m0 {
      PassShrinks(d, thr, m0);
      FixExtends(d, thr, full);
    }
  }

  /** A pass extends every intermediate state of itself. */
  lemma {:induction false} PassSplit(d: seq<seq<int>>, thr: int, m: seq<Option<nat>>, k: nat)
    requires IsMatrix(d, |m|) && k <= |m|
    ensures Extends(PassTo(d, thr, m, k), PassTo(d, thr, m, |m|))
    decreases |m| - k
  {
    if k < |m| {
      PassSplit(d, thr, m, k + 1);
      var p := PassTo(d, thr, m, k);
      var r := Step(d, thr, p, k);
      if r != p { assert r == p[k := r[k]]; }
    }
  }

  /** The two-storm scenario: two ends, two centers, each pair 10 apart and
      the crossed pairs 5000 apart, threshold 1000: matched straight. */
  lemma TwoStormsNotCrossed()
    ensures MatchSpec([[10, 5000], [5000, 10]], 1000, 2) == [Some(0), Some(1)]
  {
    var d := [[10, 5000], [5000, 10]];
    MutualNearestMatched(d, 1000, 2, 0, 0);
    MutualNearestMatched(d, 1000, 2, 1, 1);
  }

  // ---------------------------------------------------------------------
  // The imperative algorithm

  /** The adjacency dictionaries agree with the live relation of `m`. */
  ghost predicate AdjOK(d: seq<seq<int>>, thr: int, m: seq<Option<nat>>,
                        fwd: seq<set<nat>>, bwd: seq<set<nat>>)
  {
    && IsMatrix(d, |m|) && |fwd| == |d| && |bwd| == |m|
    && (forall e, c :: 0 <= e < |d| && c in fwd[e] ==> c < |m|)
    && (forall c, e :: 0 <= c < |m| && e in bwd[c] ==> e < |d|)
    && (forall e, c :: 0 <= e < |d| && 0 <= c < |m| ==>
          (c in fwd[e] <==> Live(d, thr, m, e, c)) && (e in bwd[c] <==> Live(d, thr, m, e, c)))
  }

  lemma AdjSets(d: seq<seq<int>>, thr: int, m: seq<Option<nat>>, fwd: seq<set<nat>>, bwd: seq<set<nat>>)
    requires AdjOK(d, thr, m, fwd, bwd)
    ensures forall e :: 0 <= e < |d| ==> fwd[e] == LiveCenters(d, thr, m, e)
    ensures forall c :: 0 <= c < |m| ==> bwd[c] == LiveEnds(d, thr, m, c)
  {
  }

  /** `min(keys, key=costs.get)`: scans keys in ascending order and keeps
      the first strictly smaller cost. */
  method MinKey(keys: set<nat>, costs: seq<int>) returns (r: nat)
    requires keys != {} && forall k :: k in keys ==> k < |costs|
    ensures FirstMin(costs, keys) == Some(r)
    ensures r in keys && forall k :: k in keys ==> costs[r] <= costs[k]
  {
    var best: Option<nat> := None;
    for j := 0 to |costs|
      invariant best.Some? ==> best.value < j && best.value in keys
      invariant best.Some? ==> forall k :: k < j && k in keys ==> costs[best.value] <= costs[k]
      invariant best.Some? ==> forall k :: k < best.value && k in keys ==> costs[best.value] < costs[k]
      invariant best.None? ==> forall k :: k < j ==> k !in keys
    {
      if j in keys && (best.None? || costs[j] < costs[best.value]) {
        best := Some(j);
      }
    }
    var k0 :| k0 in keys;
    assert best.Some?;
    r := best.value;
    FirstMinUnique(costs, keys, r);
  }

  /** `for j in rows: if k in j: del j[k]`. */
  method RemoveKey(rows: seq<set<nat>>, k: nat) returns (r: seq<set<nat>>)
    ensures |r| == |rows| && forall j :: 0 <= j < |rows| ==> r[j] == rows[j] - {k}
  {
    r := rows;
    for j := 0 to |rows|
      invariant |r| == |rows|
      invariant forall i :: 0 <= i < j ==> r[i] == rows[i] - {k}
      invariant forall i :: j <= i < |rows| ==> r[i] == rows[i]
    {
      if k in r[j] {
        r := r[j := r[j] - {k}];
      }
    }
  }

  /** Pair (x, y) comes before position (e, c) in row-major order. */
  predicate Before(x: int, y: int, e: int, c: int)
  {
    x < e || (x == e && y < c)
  }

  /** Both dictionaries hold exactly the pairs under the threshold whose
      end comes before e. */
  ghost predicate RowsFilled(d: seq<seq<int>>, nC: nat, thr: int, fwd: seq<set<nat>>, bwd: seq<set<nat>>, e: nat)
  {
    && IsMatrix(d, nC) && |fwd| == |d| && |bwd| == nC && e <= |d|
    && (forall x, y :: 0 <= x < |d| && y in fwd[x] ==> x < e)
    && (forall x, y :: 0 <= x < |d| && y in fwd[x] ==> y < nC && d[x][y] < thr)
    && (forall x, y :: 0 <= x < e && 0 <= y < nC && d[x][y] < thr ==> y in fwd[x])
    && (forall y, x :: 0 <= y < nC && x in bwd[y] ==> x < e)
    && (forall y, x :: 0 <= y < nC && x in bwd[y] ==> x < |d| && d[x][y] < thr)
    && (forall y, x :: 0 <= y < nC && 0 <= x < e && d[x][y] < thr ==> x in bwd[y])
  }

  /** Both dictionaries hold exactly the pairs under the threshold that
      come before position (e, c) in row-major order. */
  ghost predicate CellsFilled(d: seq<seq<int>>, nC: nat, thr: int, fwd: seq<set<nat>>, bwd: seq<set<nat>>, e: nat, c: nat)
  {
    && IsMatrix(d, nC) && |fwd| == |d| && |bwd| == nC
    && (forall x, y :: 0 <= x < |d| && y in fwd[x] ==> Before(x, y, e, c))
    && (forall x, y :: 0 <= x < |d| && y in fwd[x] ==> y < nC && d[x][y] < thr)
    && (forall x, y :: 0 <= x < |d| && 0 <= y < nC && Before(x, y, e, c) && d[x][y] < thr ==> y in fwd[x])
    && (forall y, x :: 0 <= y < nC && x in bwd[y] ==> Before(x, y, e, c))
    && (forall y, x :: 0 <= y < nC && x in bwd[y] ==> x < |d| && d[x][y] < thr)
    && (forall y, x :: 0 <= y < nC && 0 <= x < |d| && Before(x, y, e, c) && d[x][y] < thr ==> x in bwd[y])
  }

  /** The inner loop of lines 16-20, over the centers for end e. */
  method FillRow(d: seq<seq<int>>, nC: nat, thr: int, fwd: seq<set<nat>>, bwd: seq<set<nat>>, e: nat)
    returns (fwd': seq<set<nat>>, bwd': seq<set<nat>>)
    requires e < |d| && RowsFilled(d, nC, thr, fwd, bwd, e)
    ensures RowsFilled(d, nC, thr, fwd', bwd', e + 1)
  {
    fwd', bwd' := fwd, bwd;
    for c := 0 to nC
      invariant CellsFilled(d, nC, thr, fwd', bwd', e, c)
    {
      if d[e][c] < thr {
        fwd' := fwd'[e := fwd'[e] + {c}];
        bwd' := bwd'[c := bwd'[c] + {e}];
      }
    }
  }

  /** Lines 15-20: fill both dictionaries with every pair under the threshold. */
  method BuildAdjacency(d: seq<seq<int>>, nC: nat, thr: int) returns (fwd: seq<set<nat>>, bwd: seq<set<nat>>)
    requires IsMatrix(d, nC)
    ensures AdjOK(d, thr, NoMatches(nC), fwd, bwd)
  {
    fwd := seq(|d|, _ => {});
    bwd := seq(nC, _ => {});
    for e := 0 to |d|
      invariant RowsFilled(d, nC, thr, fwd, bwd, e)
    {
      fwd, bwd := FillRow(d, nC, thr, fwd, bwd, e);
    }
    var m := NoMatches(nC);
    forall x | 0 <= x < |m| ensures m[x].None? { }
    forall e | e < |d| ensures Some(e) !in m { }
  }

  /** Matching (i, e) removes exactly the pairs that involve i or e. */
  lemma LiveAfterMatch(d: seq<seq<int>>, thr: int, m: seq<Option<nat>>, i: nat, e: nat, e': nat, c': nat)
    requires IsMatrix(d, |m|) && i < |m| && m[i].None? && e < |d|
    requires e' < |d| && c' < |m|
    ensures Live(d, thr, m[i := Some(e)], e', c') <==> Live(d, thr, m, e', c') && e' != e && c' != i
  {
    SomeInUpdate(m, i, e, e');
  }

  /** Matching center i with end e: the fresh maps are the old ones with i
      and e taken out of every row, and the rows of i and e cleared. */
  lemma MatchKeepsAdj(d: seq<seq<int>>, thr: int, m: seq<Option<nat>>,
                      fwd: seq<set<nat>>, bwd: seq<set<nat>>, i: nat, e: nat,
                      fwd': seq<set<nat>>, bwd': seq<set<nat>>)
    requires AdjOK(d, thr, m, fwd, bwd) && i < |m| && m[i].None? && e < |d|
    requires |fwd'| == |fwd| && fwd'[e] == {} && forall x :: 0 <= x < |fwd| && x != e ==> fwd'[x] == fwd[x] - {i}
    requires |bwd'| == |bwd| && bwd'[i] == {} && forall x :: 0 <= x < |bwd| && x != i ==> bwd'[x] == bwd[x] - {e}
    ensures AdjOK(d, thr, m[i := Some(e)], fwd', bwd')
  {
    var m' := m[i := Some(e)];
    forall e', c' | 0 <= e' < |d| && 0 <= c' < |m|
      ensures (c' in fwd'[e'] <==> Live(d, thr, m', e', c')) && (e' in bwd'[c'] <==> Live(d, thr, m', e', c'))
    {
      LiveAfterMatch(d, thr, m, i, e, e', c');
    }
  }

  /** One iteration of the inner loop of `match_center` in
      src/pystormtracker/simple/linker.py, lines 28-45. */
  method TryMatch(d: seq<seq<int>>, thr: int, m: seq<Option<nat>>,
                  fwd: seq<set<nat>>, bwd: seq<set<nat>>, i: nat)
    returns (m': seq<Option<nat>>, fwd': seq<set<nat>>, bwd': seq<set<nat>>, changed: bool)
    requires AdjOK(d, thr, m, fwd, bwd) && i < |m|
    ensures AdjOK(d, thr, m', fwd', bwd')
    ensures m' == Step(d, thr, m, i)
    ensures changed <==> m' != m
  {
    m', fwd', bwd', changed := m, fwd, bwd, false;
    AdjSets(d, thr, m, fwd, bwd);
    if m[i].None? && |bwd[i]| > 0 {
      var iforward := MinKey(bwd[i], Column(d, i));
      assert i in fwd[iforward];
      var back := MinKey(fwd[iforward], d[iforward]);
      if back == i {
        m' := m[i := Some(iforward)];
        bwd' := bwd[i := {}];
        bwd' := RemoveKey(bwd', iforward);
        fwd' := fwd[iforward := {}];
        fwd' := RemoveKey(fwd', i);
        MatchKeepsAdj(d, thr, m, fwd, bwd, i, iforward, fwd', bwd');
        changed := true;
        assert m'[i] != m[i];
      }
    }
  }

  /** One pass of the `for i in range(len(centers))` loop of lines 27-45 of
      src/pystormtracker/simple/linker.py: `hasMatch` says whether it matched
      any center. */
  method MatchPass(d: seq<seq<int>>, thr: int, m: seq<Option<nat>>, fwd: seq<set<nat>>, bwd: seq<set<nat>>)
    returns (m': seq<Option<nat>>, fwd': seq<set<nat>>, bwd': seq<set<nat>>, hasMatch: bool)
    requires AdjOK(d, thr, m, fwd, bwd)
    ensures AdjOK(d, thr, m', fwd', bwd')
    ensures m' == PassTo(d, thr, m, |m|)
    ensures hasMatch <==> m' != m
  {
    m', fwd', bwd', hasMatch := m, fwd, bwd, false;
    for i := 0 to |m|
      invariant AdjOK(d, thr, m', fwd', bwd')
      invariant m' == PassTo(d, thr, m, i)
      invariant hasMatch <==> m' != m
    {
      PassExtends(d, thr, m, i);
      var changed;
      m', fwd', bwd', changed := TryMatch(d, thr, m', fwd', bwd', i);
      if changed {
        hasMatch := true;
        assert m'[i] != m[i];
      }
    }
  }

  /** `match_center` of src/pystormtracker/simple/linker.py. Returns, per
      center, the position in `tail` of the end it continues. */
  method MutualMatch(d: seq<seq<int>>, nC: nat, thr: int) returns (matched: seq<Option<nat>>)
    requires IsMatrix(d, nC)
    ensures matched == MatchSpec(d, thr, nC)
  {
    var fwd, bwd := BuildAdjacency(d, nC, thr);
    matched := NoMatches(nC);
    ghost var m0 := matched;
    while true
      invariant |matched| == nC
      invariant AdjOK(d, thr, matched, fwd, bwd)
      invariant Fix(d, thr, matched) == Fix(d, thr, m0)
      decreases |Unmatched(matched)|
    {
      ghost var start := matched;
      var hasMatch;
      matched, fwd, bwd, hasMatch := MatchPass(d, thr, matched, fwd, bwd);
      PassShrinks(d, thr, start);
      if !hasMatch {
        break;
      }
    }
  }

  /** The weaker agreement kept by the linker of pystormtracker/linker.py,
      whose `db = {}` and `di = {}` only rebind locals: the rows of matched
      centers and taken ends may keep stale keys. */
  ghost predicate AdjOKStale(d: seq<seq<int>>, thr: int, m: seq<Option<nat>>,
                             fwd: seq<set<nat>>, bwd: seq<set<nat>>)
  {
    && IsMatrix(d, |m|) && |fwd| == |d| && |bwd| == |m|
    && (forall e, c :: 0 <= e < |d| && c in fwd[e] ==> c < |m|)
    && (forall c, e :: 0 <= c < |m| && e in bwd[c] ==> e < |d|)
    && (forall e, c :: 0 <= e < |d| && 0 <= c < |m| && Some(e) !in m ==>
          (c in fwd[e] <==> Live(d, thr, m, e, c)))
    && (forall e, c :: 0 <= e < |d| && 0 <= c < |m| && m[c].None? ==>
          (e in bwd[c] <==> Live(d, thr, m, e, c)))
  }

  lemma AdjOKIsStale(d: seq<seq<int>>, thr: int, m: seq<Option<nat>>, fwd: seq<set<nat>>, bwd: seq<set<nat>>)
    requires AdjOK(d, thr, m, fwd, bwd)
    ensures AdjOKStale(d, thr, m, fwd, bwd)
  {
  }

  lemma MatchKeepsAdjStale(d: seq<seq<int>>, thr: int, m: seq<Option<nat>>,
                           fwd: seq<set<nat>>, bwd: seq<set<nat>>, i: nat, e: nat,
                           fwd': seq<set<nat>>, bwd': seq<set<nat>>)
    requires AdjOKStale(d, thr, m, fwd, bwd) && i < |m| && m[i].None? && e < |d|
    requires |fwd'| == |fwd| && forall x :: 0 <= x < |fwd| ==> fwd'[x] == fwd[x] - {i}
    requires |bwd'| == |bwd| && forall x :: 0 <= x < |bwd| ==> bwd'[x] == bwd[x] - {e}
    ensures AdjOKStale(d, thr, m[i := Some(e)], fwd', bwd')
  {
    var m' := m[i := Some(e)];
    forall e', c' | 0 <= e' < |d| && 0 <= c' < |m|
      ensures Some(e') !in m' ==> (c' in fwd'[e'] <==> Live(d, thr, m', e', c'))
      ensures m'[c'].None? ==> (e' in bwd'[c'] <==> Live(d, thr, m', e', c'))
    {
      LiveAfterMatch(d, thr, m, i, e, e', c');
      SomeInUpdate(m, i, e, e');
    }
  }

  // ---------------------------------------------------------------------
  // Python 2 dictionaries

  /** A key of minimal cost. Python 2 dicts iterate in hash-slot order,
      which the model leaves open, so `min(db, key=db.get)` may return any
      such key when several share the minimal cost. */
  ghost predicate IsMinKey(costs: seq<int>, keys: set<nat>, r: nat)
  {
    r < |costs| && r in keys && forall j :: j in keys && j < |costs| ==> costs[r] <= costs[j]
  }

  /** No two keys share a cost. */
  ghost predicate TieFreeOn(costs: seq<int>, keys: set<nat>)
  {
    forall j, k :: j in keys && k in keys && j < |costs| && k < |costs| && j != k ==> costs[j] != costs[k]
  }

  /** Without ties the minimal key is unique, so every iteration order
      yields the key `FirstMin` picks. */
  lemma MinKeyTieFree(costs: seq<int>, keys: set<nat>, r: nat)
    requires IsMinKey(costs, keys, r) && TieFreeOn(costs, keys)
    ensures FirstMin(costs, keys) == Some(r)
  {
    forall j | j < r && j in keys
      ensures costs[r] < costs[j]
    {
      assert costs[r] <= costs[j] && costs[r] != costs[j];
    }
    FirstMinUnique(costs, keys, r);
  }

  /** `min(keys, key=costs.get)` over a dict iterated in an order the model
      leaves open: the first key is kept until a strictly smaller cost
      turns up. */
  method MinKeyAnyOrder(keys: set<nat>, costs: seq<int>) returns (r: nat)
    requires keys != {} && forall k :: k in keys ==> k < |costs|
    ensures IsMinKey(costs, keys, r)
  {
    var first :| first in keys;
    var rest := keys - {first};
    r := first;
    while rest != {}
      invariant r in keys && rest <= keys
      invariant forall j :: j in keys && j !in rest ==> costs[r] <= costs[j]
      decreases |rest|
    {
      var k :| k in rest;
      if costs[k] < costs[r] {
        r := k;
      }
      rest := rest - {k};
    }
  }

  /** No end sees two centers, and no center sees two ends, at the same
      distance under the threshold. */
  ghost predicate TieFree(d: seq<seq<int>>, thr: int)
  {
    && (forall e, c1, c2 ::
          0 <= e < |d| && 0 <= c1 < |d[e]| && 0 <= c2 < |d[e]| && c1 != c2 && d[e][c1] < thr && d[e][c2] < thr
          ==> d[e][c1] != d[e][c2])
    && (forall e1, e2, c ::
          0 <= e1 < |d| && 0 <= e2 < |d| && 0 <= c < |d[e1]| && c < |d[e2]| && e1 != e2 && d[e1][c] < thr && d[e2][c] < thr
          ==> d[e1][c] != d[e2][c])
  }

  lemma TieFreeLive(d: seq<seq<int>>, thr: int, m: seq<Option<nat>>, e: nat, c: nat)
    requires IsMatrix(d, |m|) && TieFree(d, thr) && e < |d| && c < |m|
    ensures TieFreeOn(Column(d, c), LiveEnds(d, thr, m, c))
    ensures TieFreeOn(d[e], LiveCenters(d, thr, m, e))
  {
  }

  /** Center i and end e choose each other: e is a nearest live end of i,
      and i a nearest live center of e. */
  ghost predicate MutualMin(d: seq<seq<int>>, thr: int, m: seq<Option<nat>>, e: nat, i: nat)
    requires IsMatrix(d, |m|) && i < |m|
  {
    e < |d| && IsMinKey(Column(d, i), LiveEnds(d, thr, m, i), e) && IsMinKey(d[e], LiveCenters(d, thr, m, e), i)
  }

  /** Matching a pair that chose each other keeps the matching one-to-one
      and under the threshold. */
  lemma MutualMinSound(d: seq<seq<int>>, thr: int, m: seq<Option<nat>>, e: nat, i: nat)
    requires IsMatrix(d, |m|) && i < |m| && m[i].None? && Sound(d, thr, m) && MutualMin(d, thr, m, e, i)
    ensures Sound(d, thr, m[i := Some(e)]) && Extends(m, m[i := Some(e)])
  {
    assert e in LiveEnds(d, thr, m, i);
    assert Some(e) !in m;
    forall c | 0 <= c < |m| && c != i && m[c].Some?
      ensures m[c].value != e
    {
      assert m[c] in m;
    }
  }

  /** One iteration of the inner loop of `match_center` in
      pystormtracker/linker.py, lines 52-70. The stale rows are never read:
      the `matched[i] is None` guard skips matched centers, and an end found
      through a live backward row is not taken. A match is only made for a
      pair that chose each other; without ties it is the specified step. */
  method TryMatchStale(d: seq<seq<int>>, thr: int, m: seq<Option<nat>>,
                       fwd: seq<set<nat>>, bwd: seq<set<nat>>, i: nat)
    returns (m': seq<Option<nat>>, fwd': seq<set<nat>>, bwd': seq<set<nat>>, changed: bool)
    requires AdjOKStale(d, thr, m, fwd, bwd) && i < |m|
    ensures AdjOKStale(d, thr, m', fwd', bwd')
    ensures |m'| == |m| && (changed <==> m' != m)
    ensures m' != m ==> m[i].None? && m'[i].Some? && m' == m[i := m'[i]] && MutualMin(d, thr, m, m'[i].value, i)
    ensures TieFree(d, thr) ==> m' == Step(d, thr, m, i)
  {
    m', fwd', bwd', changed := m, fwd, bwd, false;
    if m[i].None? && |bwd[i]| > 0 {
      assert bwd[i] == LiveEnds(d, thr, m, i);
      var iforward := MinKeyAnyOrder(bwd[i], Column(d, i));
      assert Some(iforward) !in m;
      assert fwd[iforward] == LiveCenters(d, thr, m, iforward);
      assert i in fwd[iforward];
      var back := MinKeyAnyOrder(fwd[iforward], d[iforward]);
      if TieFree(d, thr) {
        TieFreeLive(d, thr, m, iforward, i);
        MinKeyTieFree(Column(d, i), bwd[i], iforward);
        MinKeyTieFree(d[iforward], fwd[iforward], back);
      }
      if back == i {
        m' := m[i := Some(iforward)];
        bwd' := RemoveKey(bwd, iforward);
        fwd' := RemoveKey(fwd, i);
        MatchKeepsAdjStale(d, thr, m, fwd, bwd, i, iforward, fwd', bwd');
        changed := true;
        assert m'[i] != m[i];
      }
    } else if m[i].None? {
      assert LiveEnds(d, thr, m, i) == {};
    }
  }

  /** One pass of the `for i in range(len(centers))` loop of lines 50-70 of
      pystormtracker/linker.py: it keeps every earlier match and keeps the
      matching one-to-one; without ties it is the specified pass. */
  method MatchPassStale(d: seq<seq<int>>, thr: int, m: seq<Option<nat>>, fwd: seq<set<nat>>, bwd: seq<set<nat>>)
    returns (m': seq<Option<nat>>, fwd': seq<set<nat>>, bwd': seq<set<nat>>, hasMatch: bool)
    requires AdjOKStale(d, thr, m, fwd, bwd)
    ensures AdjOKStale(d, thr, m', fwd', bwd')
    ensures Extends(m, m') && (Sound(d, thr, m) ==> Sound(d, thr, m'))
    ensures TieFree(d, thr) ==> m' == PassTo(d, thr, m, |m|)
    ensures hasMatch <==> m' != m
  {
    m', fwd', bwd', hasMatch := m, fwd, bwd, false;
    for i := 0 to |m|
      invariant AdjOKStale(d, thr, m', fwd', bwd')
      invariant Extends(m, m') && (Sound(d, thr, m) ==> Sound(d, thr, m'))
      invariant forall c :: i <= c < |m| ==> m'[c] == m[c]
      invariant TieFree(d, thr) ==> m' == PassTo(d, thr, m, i)
      invariant hasMatch <==> m' != m
    {
      ghost var prev := m';
      var changed;
      m', fwd', bwd', changed := TryMatchStale(d, thr, m', fwd', bwd', i);
      if changed {
        if Sound(d, thr, m) {
          MutualMinSound(d, thr, prev, m'[i].value, i);
        }
        hasMatch := true;
        assert m'[i] != m[i];
      }
    }
  }

  /** A matching that gains a match leaves fewer centers unmatched. */
  lemma ExtendsShrinks(m1: seq<Option<nat>>, m2: seq<Option<nat>>)
    requires Extends(m1, m2) && m1 != m2
    ensures |Unmatched(m2)| < |Unmatched(m1)|
  {
    ExtendsUnmatched(m1, m2);
    var u, v := Unmatched(m2), Unmatched(m1);
    var c :| c in v && c !in u;
    SubsetCard(u, v - {c});
  }

  /** `match_center` of pystormtracker/linker.py. Its dictionaries keep
      stale entries, and `min` breaks exact ties in an order the model
      leaves open: the result is always one-to-one and under the threshold,
      and without ties it is the specified matching. */
  method MutualMatchRebinding(d: seq<seq<int>>, nC: nat, thr: int) returns (matched: seq<Option<nat>>)
    requires IsMatrix(d, nC)
    ensures |matched| == nC && Sound(d, thr, matched)
    ensures TieFree(d, thr) ==> matched == MatchSpec(d, thr, nC)
  {
    var fwd, bwd := BuildAdjacency(d, nC, thr);
    matched := NoMatches(nC);
    AdjOKIsStale(d, thr, matched, fwd, bwd);
    NoneSound(d, thr, nC);
    ghost var m0 := matched;
    while true
      invariant |matched| == nC
      invariant AdjOKStale(d, thr, matched, fwd, bwd) && Sound(d, thr, matched)
      invariant TieFree(d, thr) ==> Fix(d, thr, matched) == Fix(d, thr, m0)
      decreases |Unmatched(matched)|
    {
      ghost var start := matched;
      var hasMatch;
      matched, fwd, bwd, hasMatch := MatchPassStale(d, thr, matched, fwd, bwd);
      if !hasMatch {
        break;
      }
      ExtendsShrinks(start, matched);
    }
  }
}
