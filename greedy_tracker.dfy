/** The greedy tracker of pystormtracker/tracker.py (and its copy in
    pytrack/tracker.py): each center of a frame joins the nearest track
    that ended in the previous frame, or opens a track of its own. */
module GreedyTracking {
  import opened Util
  import opened TrackModel
  import Linking

  /** The value of a `Track` object. */
  datatype TrackVal = TrackVal(endtime: Option<int>, centers: seq<Center>)

  /** `center.time > self.endtime or self.endtime is None`: Python 2 orders
      every number above `None`, so a track with no end time accepts
      anything. */
  predicate Accepts(tr: TrackVal, c: Center)
  {
    tr.endtime.None? || c.time > tr.endtime.value
  }

  /** `Track.append`: a center that is not later than the track's end is
      dropped without notice. */
  function AppendVal(tr: TrackVal, c: Center): TrackVal
  {
    if Accepts(tr, c) then TrackVal(Some(c.time), tr.centers + [c]) else tr
  }

  /** The centers are in strictly increasing time order and `endtime` is
      the time of the last one (None while there is none). */
  predicate Chronological(tr: TrackVal)
  {
    (forall a, b :: 0 <= a < b < |tr.centers| ==> tr.centers[a].time < tr.centers[b].time) &&
    tr.endtime == (if tr.centers == [] then None else Some(tr.centers[|tr.centers| - 1].time))
  }

  /** Appending keeps a track chronological: the center is added iff the
      track is empty or the center is later than its last center, and
      otherwise the track is unchanged. */
  lemma AppendKeepsChronology(tr: TrackVal, c: Center)
    requires Chronological(tr)
    ensures Chronological(AppendVal(tr, c))
    ensures Accepts(tr, c) <==> tr.centers == [] || c.time > tr.centers[|tr.centers| - 1].time
    ensures AppendVal(tr, c).centers == if Accepts(tr, c) then tr.centers + [c] else tr.centers
  {
    if Accepts(tr, c) {
      var cs := tr.centers + [c];
      forall a, b | 0 <= a < b < |cs|
        ensures cs[a].time < cs[b].time
      {
        if b < |tr.centers| {
          assert cs[a] == tr.centers[a] && cs[b] == tr.centers[b];
        } else if a < |tr.centers| - 1 {
          assert tr.centers[a].time < tr.centers[|tr.centers| - 1].time;
        }
      }
    }
  }

  /** Every tail entry names a track that has a last center. */
  predicate TailOK(ts: seq<TrackVal>, tail: seq<int>)
  {
    forall k :: 0 <= k < |tail| ==> 0 <= tail[k] < |ts| && |ts[tail[k]].centers| > 0
  }

  /** Every track is chronological and non-empty, and the tail is valid. */
  predicate WellFormed(ts: seq<TrackVal>, tail: seq<int>)
  {
    (forall i :: 0 <= i < |ts| ==> Chronological(ts[i]) && |ts[i].centers| > 0) && TailOK(ts, tail)
  }

  function LastOf(ts: seq<TrackVal>, t: int): Center
    requires 0 <= t < |ts| && |ts[t].centers| > 0
  {
    ts[t].centers[|ts[t].centers| - 1]
  }

  /** The order of `(dist, t)` tuples in the priority queue. */
  predicate QueueBefore(d: int, t: int, d': int, t': int)
  {
    d < d' || (d == d' && t <= t')
  }

  /** `r` is the answer `match_center` promises: None iff no tail track
      ends strictly closer than `threshold` to `c`, else such a tail track
      that comes first in `(dist, t)` order among them. */
  predicate IsNearest(ts: seq<TrackVal>, tail: seq<int>, c: Center, dist: Linking.Dist, threshold: int, r: Option<int>)
    requires TailOK(ts, tail)
  {
    (r.None? <==> forall k :: 0 <= k < |tail| ==> dist(c, LastOf(ts, tail[k])) >= threshold) &&
    (r.Some? ==> r.value in tail && dist(c, LastOf(ts, r.value)) < threshold) &&
    (r.Some? ==> forall k :: 0 <= k < |tail| && dist(c, LastOf(ts, tail[k])) < threshold ==>
      QueueBefore(dist(c, LastOf(ts, r.value)), r.value, dist(c, LastOf(ts, tail[k])), tail[k]))
  }

  /** `match_center`: the tail tracks in order, keeping the first one of
      least `(dist, t)` below `threshold`. */
  function Nearest(ts: seq<TrackVal>, tail: seq<int>, c: Center, dist: Linking.Dist, threshold: int): (r: Option<int>)
    requires TailOK(ts, tail)
    ensures r.Some? ==> r.value in tail
    decreases |tail|
  {
    if tail == [] then None
    else
      var rest := Nearest(ts, tail[..|tail| - 1], c, dist, threshold);
      var t := tail[|tail| - 1];
      assert rest.Some? ==> rest.value in tail;
      if dist(c, LastOf(ts, t)) >= threshold then rest
      else if rest.Some? && QueueBefore(dist(c, LastOf(ts, rest.value)), rest.value, dist(c, LastOf(ts, t)), t) then rest
      else Some(t)
  }

  /** `match_center` returns the nearest tail track below the threshold. */
  lemma {:induction false} NearestSpec(ts: seq<TrackVal>, tail: seq<int>, c: Center, dist: Linking.Dist, threshold: int)
    requires TailOK(ts, tail)
    ensures IsNearest(ts, tail, c, dist, threshold, Nearest(ts, tail, c, dist, threshold))
    decreases |tail|
  {
    if tail != [] {
      var n := |tail| - 1;
      NearestSpec(ts, tail[..n], c, dist, threshold);
      assert forall k :: 0 <= k < n ==> tail[..n][k] == tail[k];
    }
  }

  /** The test applied to the result of `match_center`: `if track_id:` as
      written, which also rejects track 0, or `if track_id is not None:`. */
  datatype MatchTest = Truthy | NotNone

  predicate Extends(test: MatchTest, tid: Option<int>)
  {
    tid.Some? && (test == NotNone || tid.value != 0)
  }

  /** One center of a later frame: `ts` are the tracks so far, `tail` the
      previous frame's tail, `newTail` the tail built so far. */
  function InsertOne(ts: seq<TrackVal>, tail: seq<int>, newTail: seq<int>, c: Center,
                     dist: Linking.Dist, threshold: int, test: MatchTest): (r: (seq<TrackVal>, seq<int>))
    requires TailOK(ts, tail)
    ensures TailOK(r.0, tail) && |r.0| >= |ts| && |r.1| == |newTail| + 1
  {
    var tid := Nearest(ts, tail, c, dist, threshold);
    if Extends(test, tid) then
      ExtendTailOK(ts, tail, tid.value, c);
      Place(ts, newTail, tid, c, test)
    else
      OpenTailOK(ts, tail, c);
      Place(ts, newTail, tid, c, test)
  }

  /** The center goes to track `tid` when the test accepts it, and to a
      new track otherwise. */
  function Place(ts: seq<TrackVal>, newTail: seq<int>, tid: Option<int>, c: Center, test: MatchTest): (seq<TrackVal>, seq<int>)
    requires tid.Some? ==> 0 <= tid.value < |ts|
  {
    if Extends(test, tid) then (ts[tid.value := AppendVal(ts[tid.value], c)], newTail + [tid.value])
    else (ts + [AppendVal(TrackVal(None, []), c)], newTail + [|ts|])
  }

  lemma ExtendTailOK(ts: seq<TrackVal>, tail: seq<int>, t: int, c: Center)
    requires TailOK(ts, tail) && 0 <= t < |ts|
    ensures TailOK(ts[t := AppendVal(ts[t], c)], tail)
  {
    assert |AppendVal(ts[t], c).centers| >= |ts[t].centers|;
  }

  lemma OpenTailOK(ts: seq<TrackVal>, tail: seq<int>, c: Center)
    requires TailOK(ts, tail)
    ensures TailOK(ts + [AppendVal(TrackVal(None, []), c)], tail)
  {
    var ts' := ts + [AppendVal(TrackVal(None, []), c)];
    assert forall k :: 0 <= k < |tail| ==> ts'[tail[k]] == ts[tail[k]];
  }

  /** What one center does: the new tail entry is the track it joined or
      the track it opened, which holds that center alone; a track of the
      previous tail gains the center or stays as it was, and every other
      track stays as it was. */
  lemma InsertOneStep(ts: seq<TrackVal>, tail: seq<int>, newTail: seq<int>, c: Center,
                      dist: Linking.Dist, threshold: int, test: MatchTest)
    requires TailOK(ts, tail)
    ensures var r := InsertOne(ts, tail, newTail, c, dist, threshold, test);
      r.1[..|newTail|] == newTail && r.1[|newTail|] < |r.0| &&
      (r.1[|newTail|] in tail || r.1[|newTail|] == |ts|) &&
      (|r.0| == |ts| || (|r.0| == |ts| + 1 && r.0[|ts|].centers == [c])) &&
      forall i :: 0 <= i < |ts| ==> r.0[i].centers == ts[i].centers || (i in tail && r.0[i].centers == ts[i].centers + [c])
  {
  }

  /** A step keeps every track chronological and non-empty. */
  lemma InsertOneWellFormed(ts: seq<TrackVal>, tail: seq<int>, newTail: seq<int>, c: Center,
                            dist: Linking.Dist, threshold: int, test: MatchTest)
    requires WellFormed(ts, tail)
    ensures WellFormed(InsertOne(ts, tail, newTail, c, dist, threshold, test).0, tail)
  {
    var tid := Nearest(ts, tail, c, dist, threshold);
    if Extends(test, tid) {
      AppendKeepsChronology(ts[tid.value], c);
    } else {
      AppendKeepsChronology(TrackVal(None, []), c);
    }
  }

  /** The centers of a later frame, one after another. */
  function FoldInsert(ts: seq<TrackVal>, tail: seq<int>, cs: seq<Center>,
                      dist: Linking.Dist, threshold: int, test: MatchTest): (r: (seq<TrackVal>, seq<int>))
    requires TailOK(ts, tail)
    ensures TailOK(r.0, tail) && |r.0| >= |ts| && |r.1| == |cs|
    decreases |cs|
  {
    if cs == [] then (ts, [])
    else
      var prev := FoldInsert(ts, tail, cs[..|cs| - 1], dist, threshold, test);
      InsertOne(prev.0, tail, prev.1, cs[|cs| - 1], dist, threshold, test)
  }

  lemma FoldStep(ts: seq<TrackVal>, tail: seq<int>, cs: seq<Center>, k: nat,
                 dist: Linking.Dist, threshold: int, test: MatchTest)
    requires TailOK(ts, tail) && k < |cs|
    ensures var prev := FoldInsert(ts, tail, cs[..k], dist, threshold, test);
      FoldInsert(ts, tail, cs[..k + 1], dist, threshold, test) == InsertOne(prev.0, tail, prev.1, cs[k], dist, threshold, test)
  {
    assert cs[..k + 1][..k] == cs[..k];
  }

  /** The one-center tracks `insert_centers` opens on the first frame. */
  function Opened(cs: seq<Center>): (ts: seq<TrackVal>)
    ensures |ts| == |cs|
  {
    seq(|cs|, k requires 0 <= k < |cs| => TrackVal(Some(cs[k].time), [cs[k]]))
  }

  /** `insert_centers`: while there are no tracks every center opens one;
      afterwards each center is matched on its own against the previous
      tail. */
  function InsertCentersSpec(ts: seq<TrackVal>, tail: seq<int>, cs: seq<Center>,
                             dist: Linking.Dist, threshold: int, test: MatchTest): (r: (seq<TrackVal>, seq<int>))
    requires TailOK(ts, tail)
  {
    if ts == [] then (Opened(cs), tail + Range(0, |cs|))
    else FoldInsert(ts, tail, cs, dist, threshold, test)
  }

  /** `ys` extends `xs`. */
  predicate IsPrefix(xs: seq<Center>, ys: seq<Center>)
  {
    |xs| <= |ys| && ys[..|xs|] == xs
  }

  /** Each entry of the new tail `r.1` is a track of the previous tail or
      a track opened since `ts`. */
  predicate TailFromPrevious(ts: seq<TrackVal>, tail: seq<int>, r: (seq<TrackVal>, seq<int>))
  {
    forall k :: 0 <= k < |r.1| ==> r.1[k] in tail || |ts| <= r.1[k] < |r.0|
  }

  /** Every track of `ts'` beyond those of `ts` holds exactly one center. */
  predicate OpenedSingle(ts: seq<TrackVal>, ts': seq<TrackVal>)
  {
    forall i :: |ts| <= i < |ts'| ==> |ts'[i].centers| == 1
  }

  /** Every track of `ts` is a prefix of the same track in `ts'`. */
  predicate OnlyGrew(ts: seq<TrackVal>, ts': seq<TrackVal>)
  {
    |ts| <= |ts'| && forall i :: 0 <= i < |ts| ==> IsPrefix(ts[i].centers, ts'[i].centers)
  }

  /** After a later frame every track is still chronological and
      non-empty, and the new tail names tracks. */
  lemma {:induction false} FoldWellFormed(ts: seq<TrackVal>, tail: seq<int>, cs: seq<Center>,
                                      dist: Linking.Dist, threshold: int, test: MatchTest)
    requires WellFormed(ts, tail)
    ensures var r := FoldInsert(ts, tail, cs, dist, threshold, test); WellFormed(r.0, r.1)
    decreases |cs|
  {
    if cs != [] {
      var prev := FoldInsert(ts, tail, cs[..|cs| - 1], dist, threshold, test);
      FoldWellFormed(ts, tail, cs[..|cs| - 1], dist, threshold, test);
      var r := InsertOne(prev.0, tail, prev.1, cs[|cs| - 1], dist, threshold, test);
      InsertOneWellFormed(prev.0, tail, prev.1, cs[|cs| - 1], dist, threshold, test);
      InsertOneTail(prev.0, tail, prev.1, cs[|cs| - 1], dist, threshold, test);
      assert forall k :: 0 <= k < |r.1| ==> 0 <= r.1[k] < |r.0|;
    }
  }

  /** A step adds one entry, naming a track, to the new tail. */
  lemma InsertOneTail(ts: seq<TrackVal>, tail: seq<int>, newTail: seq<int>, c: Center,
                      dist: Linking.Dist, threshold: int, test: MatchTest)
    requires TailOK(ts, tail) && forall k :: 0 <= k < |newTail| ==> 0 <= newTail[k] < |ts|
    ensures var r := InsertOne(ts, tail, newTail, c, dist, threshold, test);
      forall k :: 0 <= k < |r.1| ==> 0 <= r.1[k] < |r.0|
  {
  }

  /** Each new tail entry is a track of the previous tail or a track opened
      in this frame. */
  lemma {:induction false} FoldTailOrigin(ts: seq<TrackVal>, tail: seq<int>, cs: seq<Center>,
                                          dist: Linking.Dist, threshold: int, test: MatchTest)
    requires TailOK(ts, tail)
    ensures TailFromPrevious(ts, tail, FoldInsert(ts, tail, cs, dist, threshold, test))
    decreases |cs|
  {
    if cs != [] {
      var prev := FoldInsert(ts, tail, cs[..|cs| - 1], dist, threshold, test);
      FoldTailOrigin(ts, tail, cs[..|cs| - 1], dist, threshold, test);
      var r := InsertOne(prev.0, tail, prev.1, cs[|cs| - 1], dist, threshold, test);
      InsertOneStep(prev.0, tail, prev.1, cs[|cs| - 1], dist, threshold, test);
      forall k | 0 <= k < |prev.1|
        ensures r.1[k] in tail || |ts| <= r.1[k] < |r.0|
      {
        assert r.1[k] == r.1[..|prev.1|][k] == prev.1[k];
        assert prev.1[k] in tail || |ts| <= prev.1[k] < |prev.0|;
      }
    }
  }

  /** A track opened in a later frame holds exactly one center: matching
      only looks at the previous tail, so no other center of the frame can
      join it. */
  lemma {:induction false} FoldOpenedSingle(ts: seq<TrackVal>, tail: seq<int>, cs: seq<Center>,
                                            dist: Linking.Dist, threshold: int, test: MatchTest)
    requires TailOK(ts, tail)
    ensures OpenedSingle(ts, FoldInsert(ts, tail, cs, dist, threshold, test).0)
    decreases |cs|
  {
    if cs != [] {
      var prev := FoldInsert(ts, tail, cs[..|cs| - 1], dist, threshold, test);
      FoldOpenedSingle(ts, tail, cs[..|cs| - 1], dist, threshold, test);
      var r := InsertOne(prev.0, tail, prev.1, cs[|cs| - 1], dist, threshold, test);
      InsertOneStep(prev.0, tail, prev.1, cs[|cs| - 1], dist, threshold, test);
      forall i | |ts| <= i < |prev.0|
        ensures |r.0[i].centers| == 1
      {
        assert i !in tail;
        assert |prev.0[i].centers| == 1;
        assert r.0[i].centers == prev.0[i].centers;
      }
    }
  }

  /** The tracks that existed before a later frame only grow. */
  lemma {:induction false} FoldExtends(ts: seq<TrackVal>, tail: seq<int>, cs: seq<Center>,
                                       dist: Linking.Dist, threshold: int, test: MatchTest)
    requires TailOK(ts, tail)
    ensures OnlyGrew(ts, FoldInsert(ts, tail, cs, dist, threshold, test).0)
    decreases |cs|
  {
    if cs != [] {
      var prev := FoldInsert(ts, tail, cs[..|cs| - 1], dist, threshold, test);
      FoldExtends(ts, tail, cs[..|cs| - 1], dist, threshold, test);
      var r := InsertOne(prev.0, tail, prev.1, cs[|cs| - 1], dist, threshold, test);
      InsertOneStep(prev.0, tail, prev.1, cs[|cs| - 1], dist, threshold, test);
      forall i | 0 <= i < |ts|
        ensures IsPrefix(ts[i].centers, r.0[i].centers)
      {
        if r.0[i].centers != prev.0[i].centers {
          assert r.0[i].centers[..|ts[i].centers|] == prev.0[i].centers[..|ts[i].centers|];
        }
      }
    }
  }

  /** As written, `if track_id:` treats track 0 like no match, so track 0
      never receives a center after the first frame. */
  lemma {:induction false} AsWrittenSkipsTrackZero(ts: seq<TrackVal>, tail: seq<int>, cs: seq<Center>,
                                                   dist: Linking.Dist, threshold: int)
    requires TailOK(ts, tail) && ts != []
    ensures InsertCentersSpec(ts, tail, cs, dist, threshold, Truthy).0[0] == ts[0]
    decreases |cs|
  {
    if cs != [] {
      AsWrittenSkipsTrackZero(ts, tail, cs[..|cs| - 1], dist, threshold);
    }
  }

  /** With `is not None`, a center whose nearest previous-tail track is `t`
      joins `t`, track 0 included. */
  lemma FixedJoinsNearest(ts: seq<TrackVal>, tail: seq<int>, c: Center, dist: Linking.Dist, threshold: int)
    requires TailOK(ts, tail) && ts != []
    ensures var r := InsertCentersSpec(ts, tail, [c], dist, threshold, NotNone);
      match Nearest(ts, tail, c, dist, threshold)
      case Some(t) => r.1 == [t] && |r.0| == |ts| && r.0[t] == AppendVal(ts[t], c)
      case None => r.1 == [|ts|] && r.0 == ts + [TrackVal(Some(c.time), [c])]
  {
    assert [c][..0] == [];
    assert [] + [c] == [c];
    assert FoldInsert(ts, tail, [c], dist, threshold, NotNone) == InsertOne(ts, tail, [], c, dist, threshold, NotNone);
  }

  /** `insert_centers` leaves the tracks chronological and non-empty and
      the tail with one entry per center of the frame. */
  lemma InsertCentersWellFormed(ts: seq<TrackVal>, tail: seq<int>, cs: seq<Center>,
                                dist: Linking.Dist, threshold: int, test: MatchTest)
    requires WellFormed(ts, tail)
    ensures var r := InsertCentersSpec(ts, tail, cs, dist, threshold, test);
      WellFormed(r.0, r.1) && |r.1| == |cs| && OnlyGrew(ts, r.0)
  {
    if ts == [] {
      if tail != [] {
        TailHeadInTracks(ts, tail);
        assert false;
      }
      var r := InsertCentersSpec(ts, tail, cs, dist, threshold, test);
      assert r.1 == Range(0, |cs|);
      forall i | 0 <= i < |r.0|
        ensures Chronological(r.0[i]) && |r.0[i].centers| > 0
      {
        assert r.0[i].centers == [cs[i]];
      }
    } else {
      FoldWellFormed(ts, tail, cs, dist, threshold, test);
      FoldExtends(ts, tail, cs, dist, threshold, test);
    }
  }

  lemma TailHeadInTracks(ts: seq<TrackVal>, tail: seq<int>)
    requires TailOK(ts, tail) && tail != []
    ensures 0 <= tail[0] < |ts|
  {
  }

  /** The default `threshold` of `match_center`. */
  const DefaultThreshold := 500

  const Origin0 := Center(0, 0.0, 0.0, 0)
  const Next1 := Center(1, 0.0, 0.0, 0)

  /** One track ending at a center identical to the next frame's single
      center: as written the center opens a second track, because the
      match is track 0; with `is not None` it joins track 0. */
  lemma TrackZeroCounterexample()
    ensures var ts := [TrackVal(Some(0), [Origin0])];
      var asWritten := InsertCentersSpec(ts, [0], [Next1], (a: Center, b: Center) => 0, DefaultThreshold, Truthy);
      var fixed := InsertCentersSpec(ts, [0], [Next1], (a: Center, b: Center) => 0, DefaultThreshold, NotNone);
      asWritten.1 == [1] && |asWritten.0| == 2 && asWritten.0[0] == ts[0] &&
      fixed.1 == [0] && |fixed.0| == 1 && fixed.0[0].centers == [Origin0, Next1]
  {
    var ts := [TrackVal(Some(0), [Origin0])];
    var dist := (a: Center, b: Center) => 0;
    assert [Next1][..0] == [];
    assert Nearest(ts, [0], Next1, dist, DefaultThreshold) == Some(0);
    assert FoldInsert(ts, [0], [Next1], dist, DefaultThreshold, Truthy) == InsertOne(ts, [0], [], Next1, dist, DefaultThreshold, Truthy);
    assert FoldInsert(ts, [0], [Next1], dist, DefaultThreshold, NotNone) == InsertOne(ts, [0], [], Next1, dist, DefaultThreshold, NotNone);
  }

  const OtherNext1 := Center(1, 10.0, 0.0, 0)

  /** Matching is not one-to-one: two centers of one frame can both pick
      the same track; the second has the same time as the first, so the
      track drops it, yet the tail lists the track twice and no track is
      opened for it. */
  lemma SharedMatchDropsCenter()
    ensures var ts := [TrackVal(Some(0), [Origin0]), TrackVal(Some(0), [Origin0])];
      var r := InsertCentersSpec(ts, [0, 1], [Next1, OtherNext1], (a: Center, b: Center) => 0, DefaultThreshold, NotNone);
      r.1 == [0, 0] && |r.0| == 2 && r.0[0].centers == [Origin0, Next1] && r.0[1] == ts[1]
  {
    var ts := [TrackVal(Some(0), [Origin0]), TrackVal(Some(0), [Origin0])];
    var dist := (a: Center, b: Center) => 0;
    var cs := [Next1, OtherNext1];
    assert cs[..1] == [Next1] && cs[..1][..0] == [];
    assert Nearest(ts, [0, 1], Next1, dist, DefaultThreshold) == Some(0);
    var s1 := InsertOne(ts, [0, 1], [], Next1, dist, DefaultThreshold, NotNone);
    assert FoldInsert(ts, [0, 1], [Next1], dist, DefaultThreshold, NotNone) == s1;
    assert [Origin0] + [Next1] == [Origin0, Next1];
    assert s1.0 == [TrackVal(Some(1), [Origin0, Next1]), ts[1]];
    assert Nearest(s1.0, [0, 1], OtherNext1, dist, DefaultThreshold) == Some(0);
  }

  /** A `Track` object. */
  class Track {
    var endtime: Option<int>
    var centers: seq<Center>

    function Val(): TrackVal
      reads this
    {
      TrackVal(endtime, centers)
    }

    constructor()
      ensures Val() == TrackVal(None, [])
    {
      endtime := None;
      centers := [];
    }

    /** `Track.append`. */
    method Append(c: Center)
      modifies this
      ensures Val() == AppendVal(old(Val()), c)
    {
      if endtime.None? || c.time > endtime.value {
        endtime := Some(c.time);
        centers := centers + [c];
      }
    }
  }

  /** A `Tracks` object: the track list and the indices of the tracks that
      received a center in the latest frame. */
  class Tracks {
    var tracks: seq<Track>
    var tail: seq<int>

    function Vals(): (v: seq<TrackVal>)
      reads this, tracks
      ensures |v| == |tracks| && forall i :: 0 <= i < |tracks| ==> v[i] == tracks[i].Val()
    {
      seq(|tracks|, i reads this, tracks requires 0 <= i < |tracks| => tracks[i].Val())
    }

    /** The track objects are distinct, so appending to one changes no
        other, and the values are well formed. */
    ghost predicate Valid()
      reads this, tracks
    {
      (forall a, b :: 0 <= a < b < |tracks| ==> tracks[a] != tracks[b]) &&
      WellFormed(Vals(), tail)
    }

    constructor()
      ensures Valid() && Vals() == [] && tail == []
    {
      tracks := [];
      tail := [];
    }

    /** `match_center`. */
    method MatchCenter(c: Center, dist: Linking.Dist, threshold: int) returns (r: Option<int>)
      requires TailOK(Vals(), tail)
      ensures r == Nearest(Vals(), tail, c, dist, threshold)
    {
      ghost var vs := Vals();
      r := None;
      var best := 0;
      var k := 0;
      while k < |tail|
        invariant 0 <= k <= |tail|
        invariant r == Nearest(vs, tail[..k], c, dist, threshold)
        invariant r.Some? ==> r.value in tail && best == dist(c, LastOf(vs, r.value))
      {
        var t := tail[k];
        var last := tracks[t].centers[|tracks[t].centers| - 1];
        var d := dist(c, last);
        if d < threshold && (r.None? || !QueueBefore(best, r.value, d, t)) {
          r := Some(t);
          best := d;
        }
        assert tail[..k + 1][..k] == tail[..k];
        k := k + 1;
      }
      assert tail[..k] == tail;
    }
  
    /** `insert_centers` as written: `if track_id:` sends a center whose
        nearest track is track 0 to a new track. */
    method InsertCenters(cs: seq<Center>, dist: Linking.Dist)
      requires Valid()
      modifies this, tracks
      ensures Valid()
      ensures (Vals(), tail) == InsertCentersSpec(old(Vals()), old(tail), cs, dist, DefaultThreshold, Truthy)
    {
      InsertWith(cs, dist, Truthy);
    }

    /** `insert_centers` with `if track_id is not None:`. */
    method InsertCentersFixed(cs: seq<Center>, dist: Linking.Dist)
      requires Valid()
      modifies this, tracks
      ensures Valid()
      ensures (Vals(), tail) == InsertCentersSpec(old(Vals()), old(tail), cs, dist, DefaultThreshold, NotNone)
    {
      InsertWith(cs, dist, NotNone);
    }

    method InsertWith(cs: seq<Center>, dist: Linking.Dist, test: MatchTest)
      requires Valid()
      modifies this, tracks
      ensures Valid()
      ensures (Vals(), tail) == InsertCentersSpec(old(Vals()), old(tail), cs, dist, DefaultThreshold, test)
    {
      if tracks == [] {
        if tail != [] {
          TailHeadInTracks(Vals(), tail);
          assert false;
        }
        OpenAll(cs);
        assert old(tail) + Range(0, |cs|) == Range(0, |cs|);
        InsertCentersWellFormed(old(Vals()), old(tail), cs, dist, DefaultThreshold, test);
      } else {
        var newTail := LaterFrame(cs, dist, test);
        FoldWellFormed(old(Vals()), old(tail), cs, dist, DefaultThreshold, test);
        SetTail(newTail);
      }
    }

    /** A later frame: every center is matched against the previous tail,
        which stays in place until the frame is done. */
    method LaterFrame(cs: seq<Center>, dist: Linking.Dist, test: MatchTest) returns (newTail: seq<int>)
      requires TailOK(Vals(), tail)
      requires forall a, b :: 0 <= a < b < |tracks| ==> tracks[a] != tracks[b]
      modifies this`tracks, tracks
      ensures forall a, b :: 0 <= a < b < |tracks| ==> tracks[a] != tracks[b]
      ensures (Vals(), newTail) == FoldInsert(old(Vals()), old(tail), cs, dist, DefaultThreshold, test)
    {
      ghost var vs, ts := Vals(), tracks;
      newTail := [];
      for k := 0 to |cs|
        invariant Grown(ts)
        invariant (Vals(), newTail) == FoldInsert(vs, tail, cs[..k], dist, DefaultThreshold, test)
      {
        newTail := FrameStep(vs, ts, cs, k, newTail, dist, test);
      }
      assert cs[..|cs|] == cs;
    }

    /** The list extends `ts` and its track objects are distinct. */
    ghost predicate Grown(ts: seq<Track>)
      reads this
    {
      |tracks| >= |ts| && (forall i :: 0 <= i < |ts| ==> tracks[i] == ts[i]) &&
      forall a, b :: 0 <= a < b < |tracks| ==> tracks[a] != tracks[b]
    }

    /** Center k of a later frame whose first k centers are placed. */
    method FrameStep(ghost vs: seq<TrackVal>, ghost ts: seq<Track>, cs: seq<Center>, k: nat, newTail: seq<int>,
                     dist: Linking.Dist, test: MatchTest) returns (newTail': seq<int>)
      requires k < |cs| && TailOK(vs, tail) && Grown(ts)
      requires (Vals(), newTail) == FoldInsert(vs, tail, cs[..k], dist, DefaultThreshold, test)
      modifies this`tracks, set t | t in tail && 0 <= t < |tracks| :: tracks[t]
      ensures Grown(ts)
      ensures (Vals(), newTail') == FoldInsert(vs, tail, cs[..k + 1], dist, DefaultThreshold, test)
    {
      FoldStep(vs, tail, cs, k, dist, DefaultThreshold, test);
      newTail' := InsertOneCenter(cs[k], newTail, dist, test);
    }

    /** `self.tail = new_tail`. */
    method SetTail(newTail: seq<int>)
      modifies this`tail
      ensures tail == newTail && Vals() == old(Vals())
    {
      tail := newTail;
    }

    /** The first frame: every center opens a track of its own. */
    method OpenAll(cs: seq<Center>)
      requires tracks == [] && tail == []
      modifies this
      ensures Vals() == Opened(cs) && tail == Range(0, |cs|)
      ensures forall a, b :: 0 <= a < b < |tracks| ==> tracks[a] != tracks[b]
    {
      var k := 0;
      while k < |cs|
        invariant 0 <= k <= |cs| && |tracks| == k
        invariant forall i :: 0 <= i < |tracks| ==> fresh(tracks[i])
        invariant forall a, b :: 0 <= a < b < |tracks| ==> tracks[a] != tracks[b]
        invariant Vals() == Opened(cs[..k]) && tail == Range(0, k)
      {
        var track := new Track();
        track.Append(cs[k]);
        tracks := tracks + [track];
        tail := tail + [|tracks| - 1];
        assert [] + [cs[k]] == [cs[k]];
        k := k + 1;
      }
      assert cs[..k] == cs;
    }

    /** One center of a later frame: match it against the unchanged tail
        and append it to the match or to a new track. */
    method InsertOneCenter(c: Center, newTail: seq<int>, dist: Linking.Dist, test: MatchTest) returns (newTail': seq<int>)
      requires TailOK(Vals(), tail)
      requires forall a, b :: 0 <= a < b < |tracks| ==> tracks[a] != tracks[b]
      modifies this`tracks, set t | t in tail && 0 <= t < |tracks| :: tracks[t]
      ensures |tracks| >= |old(tracks)|
      ensures forall i :: 0 <= i < |old(tracks)| ==> tracks[i] == old(tracks)[i]
      ensures forall a, b :: 0 <= a < b < |tracks| ==> tracks[a] != tracks[b]
      ensures Vals() == InsertOne(old(Vals()), tail, newTail, c, dist, DefaultThreshold, test).0
      ensures newTail' == InsertOne(old(Vals()), tail, newTail, c, dist, DefaultThreshold, test).1
    {
      var tid := MatchCenter(c, dist, DefaultThreshold);
      newTail' := PlaceCenter(c, tid, newTail, test);
    }

    /** Where one center goes once its match `tid` is known. */
    method PlaceCenter(c: Center, tid: Option<int>, newTail: seq<int>, test: MatchTest) returns (newTail': seq<int>)
      requires tid.Some? ==> 0 <= tid.value < |tracks|
      requires forall a, b :: 0 <= a < b < |tracks| ==> tracks[a] != tracks[b]
      modifies this`tracks, if tid.Some? then {tracks[tid.value]} else {}
      ensures |tracks| >= |old(tracks)|
      ensures forall i :: 0 <= i < |old(tracks)| ==> tracks[i] == old(tracks)[i]
      ensures forall a, b :: 0 <= a < b < |tracks| ==> tracks[a] != tracks[b]
      ensures Vals() == Place(old(Vals()), newTail, tid, c, test).0
      ensures newTail' == Place(old(Vals()), newTail, tid, c, test).1
    {
      if tid.Some? && (test == NotNone || tid.value != 0) {
        AppendTo(tid.value, c);
        newTail' := newTail + [tid.value];
      } else {
        OpenTrack(c);
        newTail' := newTail + [|tracks| - 1];
      }
    }

    /** `self.tracks[t].append(center)`. */
    method AppendTo(t: int, c: Center)
      requires 0 <= t < |tracks|
      requires forall a, b :: 0 <= a < b < |tracks| ==> tracks[a] != tracks[b]
      modifies tracks[t]
      ensures Vals() == old(Vals())[t := AppendVal(old(Vals())[t], c)]
    {
      tracks[t].Append(c);
    }

    /** A new `Track` holding `c`, appended to the list. */
    method OpenTrack(c: Center)
      requires forall a, b :: 0 <= a < b < |tracks| ==> tracks[a] != tracks[b]
      modifies this`tracks
      ensures forall a, b :: 0 <= a < b < |tracks| ==> tracks[a] != tracks[b]
      ensures |tracks| == |old(tracks)| + 1 && fresh(tracks[|old(tracks)|])
      ensures tracks[..|old(tracks)|] == old(tracks)
      ensures Vals() == old(Vals()) + [AppendVal(TrackVal(None, []), c)]
    {
      var track := new Track();
      track.Append(c);
      tracks := tracks + [track];
    }
}
}
