/** Frame-to-frame linking of storm centers into tracks: `append_center` and
    `extend_track` of src/pystormtracker/simple/linker.py and of the two older
    `Tracks` classes (src/pystormtracker/linker.py, pystormtracker/linker.py),
    which run the same loops.

    Both loops route a list of items (one-center lists for `append_center`,
    whole tracks for `extend_track`) to destination tracks: either an
    existing track, extended in place, or a fresh track appended at the end.
    `Deliver` states the outcome of such a routing once. */
module Linking {
  import opened Util
  import opened TrackModel
  import opened Matching

  /** The distance between a track end and a center (`abs_dist`), supplied
      by the caller. */
  type Dist = (Center, Center) -> int

  /** `threshold: float = 500.0`. */
  const DefaultThreshold: int := 500

  // ---------------------------------------------------------------------
  // Routing items to tracks

  /** The concatenation, in order, of the items routed to track t. */
  function Gather(dest: seq<int>, items: seq<Track>, t: int): (g: Track)
    requires |dest| == |items|
    ensures (forall k :: 0 <= k < |dest| ==> dest[k] != t) ==> g == []
  {
    if dest == [] then []
    else Gather(dest[..|dest| - 1], items[..|items| - 1], t)
         + (if dest[|dest| - 1] == t then items[|items| - 1] else [])
  }

  /** `base` followed by `extra` fresh empty tracks, then every item
      appended to its destination track in order. */
  function Deliver(base: seq<Track>, extra: nat, dest: seq<int>, items: seq<Track>): (r: seq<Track>)
    requires |dest| == |items|
    ensures |r| == |base| + extra
    ensures forall t :: 0 <= t < |base| ==> r[t] == base[t] + Gather(dest, items, t)
    ensures forall t :: |base| <= t < |r| ==> r[t] == Gather(dest, items, t)
  {
    seq(|base| + extra, t requires 0 <= t < |base| + extra =>
      (if t < |base| then base[t] else []) + Gather(dest, items, t))
  }

  lemma GatherSnoc(dest: seq<int>, items: seq<Track>, k: int, x: Track, t: int)
    requires |dest| == |items|
    ensures Gather(dest + [k], items + [x], t) == Gather(dest, items, t) + (if k == t then x else [])
  {
    assert (dest + [k])[..|dest|] == dest;
    assert (items + [x])[..|items|] == items;
  }

  /** An item routed to a fresh track opens it. */
  lemma DeliverOpen(base: seq<Track>, extra: nat, dest: seq<int>, items: seq<Track>, x: Track)
    requires |dest| == |items|
    requires forall k :: 0 <= k < |dest| ==> dest[k] < |base| + extra
    ensures Deliver(base, extra, dest, items) + [x]
         == Deliver(base, extra + 1, dest + [|base| + extra], items + [x])
  {
    var l := Deliver(base, extra, dest, items) + [x];
    var r := Deliver(base, extra + 1, dest + [|base| + extra], items + [x]);
    forall t | 0 <= t < |r| ensures l[t] == r[t] {
      GatherSnoc(dest, items, |base| + extra, x, t);
    }
  }

  /** An item routed to an existing track extends it. */
  lemma DeliverExtend(base: seq<Track>, extra: nat, dest: seq<int>, items: seq<Track>, d: nat, x: Track)
    requires |dest| == |items| && d < |base| + extra
    ensures var cur := Deliver(base, extra, dest, items);
      cur[d := cur[d] + x] == Deliver(base, extra, dest + [d], items + [x])
  {
    var cur := Deliver(base, extra, dest, items);
    var l := cur[d := cur[d] + x];
    var r := Deliver(base, extra, dest + [d], items + [x]);
    forall t | 0 <= t < |r| ensures l[t] == r[t] {
      GatherSnoc(dest, items, d, x, t);
    }
  }

  lemma DeliverNothing(base: seq<Track>)
    ensures Deliver(base, 0, [], []) == base
  {
    var r := Deliver(base, 0, [], []);
    forall t | 0 <= t < |base| ensures r[t] == base[t] {
      assert r[t] == base[t] + [];
    }
  }

  /** Routing conserves centers: the result holds the base tracks' centers
      plus every item's centers. */
  lemma {:induction false} DeliverTotalLen(base: seq<Track>, extra: nat, dest: seq<int>, items: seq<Track>)
    requires |dest| == |items|
    requires forall k :: 0 <= k < |dest| ==> 0 <= dest[k] < |base| + extra
    ensures TotalLen(Deliver(base, extra, dest, items)) == TotalLen(base) + TotalLen(items)
    decreases |items|, extra
  {
    if items == [] {
      if extra == 0 {
        DeliverNothing(base);
      } else {
        var prev := Deliver(base, extra - 1, dest, items);
        assert Deliver(base, extra, dest, items) == prev + [[]];
        DeliverTotalLen(base, extra - 1, dest, items);
        TotalLenAppend(prev, [[]]);
        assert TotalLen([[]]) == TotalLen([]) + 0;
      }
    } else {
      var n := |items| - 1;
      var dest', items' := dest[..n], items[..n];
      assert dest == dest' + [dest[n]] && items == items' + [items[n]];
      DeliverTotalLen(base, extra, dest', items');
      DeliverExtend(base, extra, dest', items', dest[n], items[n]);
      TotalLenUpdate(Deliver(base, extra, dest', items'), dest[n], items[n]);
      assert TotalLen(items) == TotalLen(items') + |items[n]|;
    }
  }

  lemma {:induction false} GatherUnique(dest: seq<int>, items: seq<Track>, i: nat)
    requires |dest| == |items| && i < |dest|
    requires forall k :: 0 <= k < |dest| && k != i ==> dest[k] != dest[i]
    ensures Gather(dest, items, dest[i]) == items[i]
  {
    var n := |dest| - 1;
    var dest', items' := dest[..n], items[..n];
    assert dest == dest' + [dest[n]] && items == items' + [items[n]];
    GatherSnoc(dest', items', dest[n], items[n], dest[i]);
    if i < n {
      GatherUnique(dest', items', i);
    }
  }

  lemma {:induction false} TotalLenSingletons(centers: seq<Center>)
    ensures TotalLen(Singletons(centers)) == |centers|
  {
    if centers != [] {
      var n := |centers| - 1;
      assert Singletons(centers)[..n] == Singletons(centers[..n]);
      TotalLenSingletons(centers[..n]);
    }
  }

  // ---------------------------------------------------------------------
  // Matching centers to track ends

  /** Every `tail` entry names an existing, non-empty track, so the
      `tracks[i][-1]` of line 10 is defined. */
  predicate TailOK(s: TrackSet)
  {
    forall k :: 0 <= k < |s.tail| ==> 0 <= s.tail[k] < |s.tracks| && s.tracks[s.tail[k]] != []
  }

  /** Every `head` entry names an existing, non-empty track, so the
      `tracks2[i][0]` of line 53 is defined. */
  predicate HeadOK(s: TrackSet)
  {
    forall k :: 0 <= k < |s.head| ==> 0 <= s.head[k] < |s.tracks| && s.tracks[s.head[k]] != []
  }

  /** The invariant every linker-built track set keeps: `tail` and `head`
      name non-empty tracks, and `tail` has no repeats. */
  predicate LinkerInv(s: TrackSet)
  {
    TailOK(s) && Distinct(s.tail) && HeadOK(s)
  }

  /** The last center of each tail track: `ends` of line 10. */
  function Ends(s: TrackSet): (ends: seq<Center>)
    requires TailOK(s)
    ensures |ends| == |s.tail|
  {
    seq(|s.tail|, k requires 0 <= k < |s.tail| => s.tracks[s.tail[k]][|s.tracks[s.tail[k]]| - 1])
  }

  /** The first center of each head track: `centers` of line 53. */
  function Firsts(s: TrackSet): (firsts: seq<Center>)
    requires HeadOK(s)
    ensures |firsts| == |s.head|
  {
    seq(|s.head|, k requires 0 <= k < |s.head| => s.tracks[s.head[k]][0])
  }

  /** d[e][c] = dist(ends[e], centers[c]), as computed at lines 15-17. */
  function DistMatrix(dist: Dist, ends: seq<Center>, centers: seq<Center>): (d: seq<seq<int>>)
    ensures |d| == |ends| && IsMatrix(d, |centers|)
  {
    seq(|ends|, e requires 0 <= e < |ends| =>
      seq(|centers|, c requires 0 <= c < |centers| => dist(ends[e], centers[c])))
  }

  /** The value `match_center` returns: for each center, the track index of
      the end it is matched to. */
  ghost function MatchedTracks(s: TrackSet, centers: seq<Center>, thr: int, dist: Dist): (r: seq<Option<int>>)
    requires TailOK(s)
    ensures |r| == |centers|
  {
    var d := DistMatrix(dist, Ends(s), centers);
    var m := MatchSpec(d, thr, |centers|);
    MatchSpecSound(d, thr, |centers|);
    seq(|centers|, i requires 0 <= i < |centers| =>
      if m[i].Some? then Some(s.tail[m[i].value]) else None)
  }

  /** Line 50: `[tracks.tail[i] if i is not None else None for i in matched]`. */
  function ToTracks(tail: seq<int>, m: seq<Option<nat>>): (r: seq<Option<int>>)
    requires forall i :: 0 <= i < |m| && m[i].Some? ==> m[i].value < |tail|
    ensures |r| == |m|
  {
    seq(|m|, i requires 0 <= i < |m| => if m[i].Some? then Some(tail[m[i].value]) else None)
  }

  /** `match_center` of src/pystormtracker/simple/linker.py and of
      src/pystormtracker/linker.py. */
  method MatchCenter(s: TrackSet, centers: seq<Center>, thr: int, dist: Dist) returns (r: seq<Option<int>>)
    requires TailOK(s)
    ensures r == MatchedTracks(s, centers, thr, dist)
  {
    var d := DistMatrix(dist, Ends(s), centers);
    var m := MutualMatch(d, |centers|, thr);
    MatchSpecSound(d, thr, |centers|);
    r := ToTracks(s.tail, m);
  }

  /** No tail end sees two centers, and no center sees two tail ends, at
      the same distance under the threshold. */
  ghost predicate DistTieFree(s: TrackSet, centers: seq<Center>, thr: int, dist: Dist)
    requires TailOK(s)
  {
    TieFree(DistMatrix(dist, Ends(s), centers), thr)
  }

  /** What `match_center` promises whatever order its dictionaries iterate
      in: one entry per center; each present entry is a `tail` track whose
      last center lies strictly within the threshold; and when `tail` has
      no repeats, no track is given to two centers. */
  ghost predicate MatchesSound(s: TrackSet, centers: seq<Center>, thr: int, dist: Dist, r: seq<Option<int>>)
    requires TailOK(s)
  {
    && |r| == |centers|
    && (forall i :: 0 <= i < |r| && r[i].Some? ==>
          exists k :: 0 <= k < |s.tail| && r[i].value == s.tail[k] && dist(Ends(s)[k], centers[i]) < thr)
    && (Distinct(s.tail) ==> DistinctSome(r))
  }

  /** A sound matching names existing tracks. */
  lemma SoundInRange(s: TrackSet, centers: seq<Center>, thr: int, dist: Dist, r: seq<Option<int>>)
    requires TailOK(s) && MatchesSound(s, centers, thr, dist, r)
    ensures MatchesInRange(s, r)
  {
    forall i | 0 <= i < |r| && r[i].Some?
      ensures 0 <= r[i].value < |s.tracks|
    {
      var k :| 0 <= k < |s.tail| && r[i].value == s.tail[k] && dist(Ends(s)[k], centers[i]) < thr;
    }
  }

  /** `match_center` of pystormtracker/linker.py: sound whatever order the
      Python 2 dictionaries iterate in, and the specified matching when no
      distances tie. */
  method MatchCenterRebinding(s: TrackSet, centers: seq<Center>, thr: int, dist: Dist) returns (r: seq<Option<int>>)
    requires TailOK(s)
    ensures MatchesSound(s, centers, thr, dist, r)
    ensures DistTieFree(s, centers, thr, dist) ==> r == MatchedTracks(s, centers, thr, dist)
  {
    var d := DistMatrix(dist, Ends(s), centers);
    var m := MutualMatchRebinding(d, |centers|, thr);
    MatchSpecSound(d, thr, |centers|);
    r := ToTracks(s.tail, m);
    forall i | 0 <= i < |r| && r[i].Some?
      ensures exists k :: 0 <= k < |s.tail| && r[i].value == s.tail[k] && dist(Ends(s)[k], centers[i]) < thr
    {
      var k := m[i].value;
      assert d[k][i] < thr;
    }
  }

  /** What `match_center` promises: one entry per center; each present
      entry is a `tail` track whose last center lies strictly within the
      threshold; and when `tail` has no repeats, no track is given to two
      centers. */
  lemma MatchedTracksSound(s: TrackSet, centers: seq<Center>, thr: int, dist: Dist)
    requires TailOK(s)
    ensures var r := MatchedTracks(s, centers, thr, dist);
      forall i :: 0 <= i < |r| && r[i].Some? ==>
        exists k :: (0 <= k < |s.tail| && r[i].value == s.tail[k]
                     && dist(Ends(s)[k], centers[i]) < thr)
    ensures Distinct(s.tail) ==> DistinctSome(MatchedTracks(s, centers, thr, dist))
  {
    var d := DistMatrix(dist, Ends(s), centers);
    var m := MatchSpec(d, thr, |centers|);
    MatchSpecSound(d, thr, |centers|);
    var r := MatchedTracks(s, centers, thr, dist);
    forall i | 0 <= i < |r| && r[i].Some?
      ensures exists k :: (0 <= k < |s.tail| && r[i].value == s.tail[k]
                           && dist(Ends(s)[k], centers[i]) < thr)
    {
      var k := m[i].value;
      assert d[k][i] < thr;
    }
  }

  /** Line 53: the centers of `match_track` are the heads' first centers. */
  ghost function MatchedHeads(s1: TrackSet, s2: TrackSet, thr: int, dist: Dist): (r: seq<Option<int>>)
    requires TailOK(s1) && HeadOK(s2)
    ensures |r| == |s2.head|
  {
    MatchedTracks(s1, Firsts(s2), thr, dist)
  }

  // ---------------------------------------------------------------------
  // Numbering of fresh tracks

  /** Target track values all name one of the first n0 tracks. */
  predicate TargetsBelow(targets: seq<Option<int>>, n0: nat)
  {
    forall i :: 0 <= i < |targets| && targets[i].Some? ==> 0 <= targets[i].value < n0
  }

  function Nones(targets: seq<Option<int>>): (flags: seq<bool>)
    ensures |flags| == |targets|
    ensures forall i :: 0 <= i < |targets| ==> (flags[i] <==> targets[i].None?)
  {
    seq(|targets|, i requires 0 <= i < |targets| => targets[i].None?)
  }

  /** Where each item goes: to its target track, or, when it has none, to a
      fresh track numbered on from n0 in item order (the `len(tracks) - 1`
      after each `tracks.append`). */
  function Route(n0: nat, targets: seq<Option<int>>): (dest: seq<int>)
    ensures |dest| == |targets|
  {
    var flags := Nones(targets);
    seq(|targets|, i requires 0 <= i < |targets| =>
      if targets[i].None? then n0 + CountTrue(flags[..i]) else targets[i].value)
  }

  lemma RouteBound(n0: nat, targets: seq<Option<int>>, i: nat)
    requires TargetsBelow(targets, n0) && i <= |targets|
    ensures forall k :: 0 <= k < i ==> 0 <= Route(n0, targets)[k] < n0 + CountTrue(Nones(targets)[..i])
  {
    var flags := Nones(targets);
    forall k | 0 <= k < i
      ensures 0 <= Route(n0, targets)[k] < n0 + CountTrue(flags[..i])
    {
      CountTrueMono(flags, k, i);
    }
  }

  /** An item without a target gets a fresh index that no other item shares. */
  lemma RouteFresh(n0: nat, targets: seq<Option<int>>, i: nat)
    requires TargetsBelow(targets, n0) && i < |targets| && targets[i].None?
    ensures Route(n0, targets)[i] >= n0
    ensures forall k :: 0 <= k < |targets| && k != i ==> Route(n0, targets)[k] != Route(n0, targets)[i]
  {
    var flags := Nones(targets);
    forall k | 0 <= k < |targets| && k != i
      ensures Route(n0, targets)[k] != Route(n0, targets)[i]
    {
      if flags[k] {
        if k < i { CountTrueMono(flags, k, i); } else { CountTrueMono(flags, i, k); }
      }
    }
  }

  /** Distinct targets give distinct destinations. */
  lemma RouteDistinct(n0: nat, targets: seq<Option<int>>)
    requires TargetsBelow(targets, n0) && DistinctSome(targets)
    ensures Distinct(Route(n0, targets))
  {
    forall i | 0 <= i < |targets| && targets[i].None? {
      RouteFresh(n0, targets, i);
    }
  }

  /** Routing is well defined: every destination is a track of the result. */
  lemma RouteInRange(n0: nat, targets: seq<Option<int>>)
    requires TargetsBelow(targets, n0)
    ensures forall k :: 0 <= k < |targets| ==> 0 <= Route(n0, targets)[k] < n0 + CountTrue(Nones(targets))
  {
    RouteBound(n0, targets, |targets|);
    assert Nones(targets)[..|targets|] == Nones(targets);
  }

  /** An item routed alone to its destination is that whole track (fresh)
      or that track's new suffix (existing). */
  lemma RouteLands(base: seq<Track>, targets: seq<Option<int>>, items: seq<Track>, i: nat)
    requires TargetsBelow(targets, |base|) && DistinctSome(targets)
    requires |items| == |targets| && i < |targets|
    ensures var n := CountTrue(Nones(targets));
      var dest := Route(|base|, targets);
      0 <= dest[i] < |base| + n &&
      Deliver(base, n, dest, items)[dest[i]]
        == (if targets[i].None? then [] else base[targets[i].value]) + items[i]
  {
    RouteInRange(|base|, targets);
    RouteDistinct(|base|, targets);
    GatherUnique(Route(|base|, targets), items, i);
    if targets[i].None? {
      RouteFresh(|base|, targets, i);
    }
  }

  /** One step of a routing loop: an item without a target is appended as
      a fresh track, at index `len(tracks)`. */
  lemma RouteStepOpen(base: seq<Track>, targets: seq<Option<int>>, items: seq<Track>, i: nat)
    requires TargetsBelow(targets, |base|) && |items| == |targets| && i < |targets| && targets[i].None?
    ensures var flags, dest := Nones(targets), Route(|base|, targets);
      var cur := Deliver(base, CountTrue(flags[..i]), dest[..i], items[..i]);
      && dest[i] == |cur|
      && cur + [items[i]] == Deliver(base, CountTrue(flags[..i + 1]), dest[..i + 1], items[..i + 1])
  {
    var flags, dest := Nones(targets), Route(|base|, targets);
    CountTruePrefix(flags, i);
    RouteBound(|base|, targets, i);
    assert dest[..i + 1] == dest[..i] + [dest[i]];
    assert items[..i + 1] == items[..i] + [items[i]];
    DeliverOpen(base, CountTrue(flags[..i]), dest[..i], items[..i], items[i]);
  }

  /** One step of a routing loop: an item with a target extends that track. */
  lemma RouteStepExtend(base: seq<Track>, targets: seq<Option<int>>, items: seq<Track>, i: nat)
    requires TargetsBelow(targets, |base|) && |items| == |targets| && i < |targets| && targets[i].Some?
    ensures var flags, dest := Nones(targets), Route(|base|, targets);
      var cur := Deliver(base, CountTrue(flags[..i]), dest[..i], items[..i]);
      var d := targets[i].value;
      && dest[i] == d && 0 <= d < |cur|
      && cur[d := cur[d] + items[i]] == Deliver(base, CountTrue(flags[..i + 1]), dest[..i + 1], items[..i + 1])
  {
    var flags, dest := Nones(targets), Route(|base|, targets);
    CountTruePrefix(flags, i);
    assert dest[..i + 1] == dest[..i] + [dest[i]];
    assert items[..i + 1] == items[..i] + [items[i]];
    DeliverExtend(base, CountTrue(flags[..i]), dest[..i], items[..i], targets[i].value, items[i]);
  }

  /** One step of a routing loop on the track list: `tracks[d].extend(item)`
      for a target d, else `tracks.append(item)`; d is the receiving track. */
  method RouteItem(ghost base: seq<Track>, ghost targets: seq<Option<int>>, ghost items: seq<Track>, ghost i: nat,
                   tracks: seq<Track>, target: Option<int>, item: Track) returns (tracks': seq<Track>, d: int)
    requires TargetsBelow(targets, |base|) && |items| == |targets| && i < |targets|
    requires target == targets[i] && item == items[i]
    requires tracks == Deliver(base, CountTrue(Nones(targets)[..i]), Route(|base|, targets)[..i], items[..i])
    ensures d == Route(|base|, targets)[i]
    ensures tracks' == Deliver(base, CountTrue(Nones(targets)[..i + 1]), Route(|base|, targets)[..i + 1], items[..i + 1])
  {
    if target.Some? {
      RouteStepExtend(base, targets, items, i);
      d := target.value;
      tracks' := tracks[d := tracks[d] + item];
    } else {
      RouteStepOpen(base, targets, items, i);
      tracks' := tracks + [item];
      d := |tracks'| - 1;
    }
  }

  /** Routing every item to its own fresh track appends them in order. */
  lemma DeliverAllFresh(base: seq<Track>, dest: seq<int>, items: seq<Track>)
    requires |dest| == |items| && forall i :: 0 <= i < |dest| ==> dest[i] == |base| + i
    ensures Deliver(base, |items|, dest, items) == base + items
  {
    var r := Deliver(base, |items|, dest, items);
    forall t | 0 <= t < |r| ensures r[t] == (base + items)[t] {
      if t < |base| {
        assert r[t] == base[t] + [];
        assert (base + items)[t] == base[t];
      } else {
        var i := t - |base|;
        assert dest[i] == t;
        GatherUnique(dest, items, i);
        assert (base + items)[t] == items[i];
      }
    }
  }

  /** After the last step the loop state is the whole routing. */
  lemma RouteDone(targets: seq<Option<int>>, dest: seq<int>, items: seq<Track>)
    ensures Nones(targets)[..|targets|] == Nones(targets)
    ensures dest[..|dest|] == dest && items[..|items|] == items
  {
  }

  // ---------------------------------------------------------------------
  // append_center

  /** Lines 67-69: the frame comes more than one step after `tend`. */
  predicate Gap(s: TrackSet, t: int)
  {
    s.tend.Some? && s.dt.Some? && t - s.dt.value > s.tend.value
  }

  /** The track each center extends, or None when it opens a track: all
      open on the first frame and after a gap, else the unmatched ones. */
  function AppendTargets(s: TrackSet, mi: seq<Option<int>>, t: int): (targets: seq<Option<int>>)
    ensures |targets| == |mi|
  {
    seq(|mi|, i requires 0 <= i < |mi| => if s.tstart.None? || Gap(s, t) then None else mi[i])
  }

  function Singletons(centers: seq<Center>): (items: seq<Track>)
    ensures |items| == |centers|
  {
    seq(|centers|, i requires 0 <= i < |centers| => [centers[i]])
  }

  /** Matched track indices name existing tracks. */
  predicate MatchesInRange(s: TrackSet, mi: seq<Option<int>>)
  {
    TargetsBelow(mi, |s.tracks|)
  }

  /** The track set after `append_center(tracks, centers)` with matching
      `mi`, for a non-empty frame. */
  function AppendSpec(s: TrackSet, mi: seq<Option<int>>, centers: seq<Center>): TrackSet
    requires |mi| == |centers| && |centers| > 0
  {
    var t0 := centers[0].time;
    var targets := AppendTargets(s, mi, t0);
    var dest := Route(|s.tracks|, targets);
    TrackSet(
      Deliver(s.tracks, CountTrue(Nones(targets)), dest, Singletons(centers)),
      if s.tstart.None? then s.head + dest else s.head,
      dest,
      if s.tstart.None? then Some(t0) else s.tstart,
      Some(t0),
      if s.tstart.Some? && s.dt.None? then Some(t0 - s.tstart.value) else s.dt)
  }

  /** The loop of lines 61-83 over the matching `mi`. An empty frame empties
      `tail` and then fails on `centers[0]`. */
  method AppendLoop(s: TrackSet, mi: seq<Option<int>>, centers: seq<Center>) returns (s': TrackSet, r: Result<()>)
    requires |mi| == |centers| && MatchesInRange(s, mi)
    ensures r.Ok? <==> |centers| > 0
    ensures r.Ok? ==> s' == AppendSpec(s, mi, centers)
    ensures r.Err? ==> r.error == IndexError && s' == s.(tail := [])
  {
    if |centers| == 0 {
      return s.(tail := []), Err(IndexError);
    }
    ghost var targets := AppendTargets(s, mi, centers[0].time);
    ghost var flags := Nones(targets);
    ghost var dest := Route(|s.tracks|, targets);
    ghost var items := Singletons(centers);
    var tracks, head, newTail := s.tracks, s.head, [];
    DeliverNothing(s.tracks);
    for i := 0 to |mi|
      invariant newTail == dest[..i]
      invariant tracks == Deliver(s.tracks, CountTrue(flags[..i]), dest[..i], items[..i])
      invariant head == if s.tstart.None? then s.head + dest[..i] else s.head
    {
      var target := if s.tstart.None? || (s.tend.Some? && s.dt.Some? && centers[0].time - s.dt.value > s.tend.value)
        then None else mi[i];
      assert targets[i] == if s.tstart.None? || Gap(s, centers[0].time) then None else mi[i];
      var d;
      tracks, d := RouteItem(s.tracks, targets, items, i, tracks, target, [centers[i]]);
      assert dest[..i + 1] == dest[..i] + [d];
      if s.tstart.None? {
        head := head + [d];
      }
      newTail := newTail + [d];
    }
    RouteDone(targets, dest, items);
    var tstart, tend, dt := s.tstart, Some(centers[0].time), s.dt;
    if tstart.None? {
      tstart := Some(centers[0].time);
    } else if dt.None? {
      dt := Some(tend.value - tstart.value);
    }
    s' := TrackSet(tracks, head, newTail, tstart, tend, dt);
    r := Ok(());
  }

  /** `append_center` loses no center and invents none. */
  lemma AppendConserves(s: TrackSet, mi: seq<Option<int>>, centers: seq<Center>)
    requires |mi| == |centers| && |centers| > 0 && MatchesInRange(s, mi)
    ensures TotalLen(AppendSpec(s, mi, centers).tracks) == TotalLen(s.tracks) + |centers|
  {
    var targets := AppendTargets(s, mi, centers[0].time);
    RouteInRange(|s.tracks|, targets);
    DeliverTotalLen(s.tracks, CountTrue(Nones(targets)), Route(|s.tracks|, targets), Singletons(centers));
    TotalLenSingletons(centers);
  }

  lemma FirstFrameRoute(n0: nat, targets: seq<Option<int>>)
    requires forall i :: 0 <= i < |targets| ==> targets[i].None?
    ensures CountTrue(Nones(targets)) == |targets|
    ensures forall i :: 0 <= i < |targets| ==> Route(n0, targets)[i] == n0 + i
  {
    var flags := Nones(targets);
    assert forall k :: 0 <= k < |flags| ==> flags[k];
    forall i | 0 <= i < |targets| ensures Route(n0, targets)[i] == n0 + i {
      CountTrueAll(flags, i);
    }
    CountTrueAll(flags, |targets|);
    assert flags[..|targets|] == flags;
  }

  /** First frame (`tstart` is None): every center opens a one-center track
      at the end, `head` gains and `tail` becomes the new indices in order,
      and `tstart` = `tend` = the frame time. */
  lemma AppendFirstFrame(s: TrackSet, mi: seq<Option<int>>, centers: seq<Center>)
    requires |mi| == |centers| && |centers| > 0 && MatchesInRange(s, mi)
    requires s.tstart.None?
    ensures var r := AppendSpec(s, mi, centers);
      && r.tracks == s.tracks + Singletons(centers)
      && |r.tail| == |centers| && (forall i :: 0 <= i < |centers| ==> r.tail[i] == |s.tracks| + i)
      && r.head == s.head + r.tail
      && r.tstart == Some(centers[0].time) && r.tend == Some(centers[0].time) && r.dt == s.dt
  {
    var targets := AppendTargets(s, mi, centers[0].time);
    assert forall i :: 0 <= i < |targets| ==> targets[i].None?;
    FirstFrameRoute(|s.tracks|, targets);
    DeliverAllFresh(s.tracks, Route(|s.tracks|, targets), Singletons(centers));
  }

  /** Later frames: a matched center extends its track unless the frame
      follows a time gap; every other center opens a one-center track;
      `head` and `tstart` stay, `tend` moves to the frame time, and `dt` is
      set once, to `tend - tstart`, on the second frame. */
  lemma AppendLaterFrame(s: TrackSet, mi: seq<Option<int>>, centers: seq<Center>, i: nat)
    requires |mi| == |centers| && |centers| > 0 && MatchesInRange(s, mi)
    requires s.tstart.Some? && i < |centers|
    ensures var r := AppendSpec(s, mi, centers);
      && (mi[i].Some? && !Gap(s, centers[0].time) ==>
            r.tail[i] == mi[i].value && s.tracks[mi[i].value] <= r.tracks[mi[i].value])
      && (mi[i].None? || Gap(s, centers[0].time) ==>
            |s.tracks| <= r.tail[i] < |r.tracks| && r.tracks[r.tail[i]] == [centers[i]])
      && r.head == s.head && r.tstart == s.tstart && r.tend == Some(centers[0].time)
      && r.dt == (if s.dt.None? then Some(centers[0].time - s.tstart.value) else s.dt)
  {
    var targets := AppendTargets(s, mi, centers[0].time);
    RouteInRange(|s.tracks|, targets);
    if targets[i].None? {
      RouteFresh(|s.tracks|, targets, i);
      GatherUnique(Route(|s.tracks|, targets), Singletons(centers), i);
    }
  }

  /** With a one-to-one matching, the new `tail` has no repeats and its
      tracks end exactly in this frame's centers, in order: the ends the
      next frame is matched against. */
  lemma AppendEnds(s: TrackSet, mi: seq<Option<int>>, centers: seq<Center>)
    requires |mi| == |centers| && |centers| > 0 && MatchesInRange(s, mi) && DistinctSome(mi)
    ensures TailOK(AppendSpec(s, mi, centers)) && Distinct(AppendSpec(s, mi, centers).tail)
    ensures Ends(AppendSpec(s, mi, centers)) == centers
  {
    var targets := AppendTargets(s, mi, centers[0].time);
    var r := AppendSpec(s, mi, centers);
    RouteDistinct(|s.tracks|, targets);
    forall i | 0 <= i < |centers|
      ensures 0 <= r.tail[i] < |r.tracks|
      ensures r.tracks[r.tail[i]] != [] && r.tracks[r.tail[i]][|r.tracks[r.tail[i]]| - 1] == centers[i]
    {
      RouteLands(s.tracks, targets, Singletons(centers), i);
    }
  }

  /** `append_center` only lengthens tracks and appends non-empty ones, so
      every `head` entry still names a non-empty track; on the first frame
      the new `head` entries are the one-center tracks just opened. */
  lemma AppendKeepsHead(s: TrackSet, mi: seq<Option<int>>, centers: seq<Center>)
    requires |mi| == |centers| && |centers| > 0 && MatchesInRange(s, mi) && HeadOK(s)
    ensures HeadOK(AppendSpec(s, mi, centers))
  {
    var r := AppendSpec(s, mi, centers);
    var targets := AppendTargets(s, mi, centers[0].time);
    RouteInRange(|s.tracks|, targets);
    if s.tstart.None? {
      AppendFirstFrame(s, mi, centers);
      forall k | 0 <= k < |r.head|
        ensures 0 <= r.head[k] < |r.tracks| && r.tracks[r.head[k]] != []
      {
        if k >= |s.head| {
          var i := k - |s.head|;
          assert r.head[k] == r.tail[i] == |s.tracks| + i;
          assert r.tracks[|s.tracks| + i] == Singletons(centers)[i];
        } else {
          assert r.head[k] == s.head[k];
          assert r.tracks[s.head[k]] == s.tracks[s.head[k]];
        }
      }
    } else {
      forall k | 0 <= k < |r.head|
        ensures 0 <= r.head[k] < |r.tracks| && r.tracks[r.head[k]] != []
      {
        var h := s.head[k];
        assert r.tracks[h] == s.tracks[h] + Gather(Route(|s.tracks|, targets), Singletons(centers), h);
      }
    }
  }

  /** Every track set the linker builds keeps `LinkerInv`: the matching it
      appends with is one-to-one. */
  lemma AppendKeepsInv(s: TrackSet, centers: seq<Center>, thr: int, dist: Dist)
    requires LinkerInv(s) && |centers| > 0
    ensures MatchesInRange(s, MatchedTracks(s, centers, thr, dist))
    ensures LinkerInv(AppendSpec(s, MatchedTracks(s, centers, thr, dist), centers))
  {
    MatchedTracksSound(s, centers, thr, dist);
    AppendEnds(s, MatchedTracks(s, centers, thr, dist), centers);
    AppendKeepsHead(s, MatchedTracks(s, centers, thr, dist), centers);
  }

  /** `s'` is `s` after `append_center(centers)` with some sound matching. */
  ghost predicate AppendedSoundly(s: TrackSet, s': TrackSet, centers: seq<Center>, thr: int, dist: Dist)
    requires TailOK(s) && |centers| > 0
  {
    exists mi :: MatchesSound(s, centers, thr, dist, mi) && s' == AppendSpec(s, mi, centers)
  }

  /** `s'` is `s1` after `extend_track(s2)` with some sound matching of the
      heads of `s2`. */
  ghost predicate ExtendedSoundly(s1: TrackSet, s2: TrackSet, s': TrackSet, thr: int, dist: Dist)
    requires TailOK(s1) && HeadOK(s2)
  {
    exists mi :: MatchesSound(s1, Firsts(s2), thr, dist, mi) && s' == ExtendSpec(s1, s2, mi)
  }

  /** Whatever the matching, `append_center` loses no center. */
  lemma AppendedSoundlyConserves(s: TrackSet, s': TrackSet, centers: seq<Center>, thr: int, dist: Dist)
    requires TailOK(s) && |centers| > 0 && AppendedSoundly(s, s', centers, thr, dist)
    ensures TotalLen(s'.tracks) == TotalLen(s.tracks) + |centers|
  {
    var mi :| MatchesSound(s, centers, thr, dist, mi) && s' == AppendSpec(s, mi, centers);
    SoundInRange(s, centers, thr, dist, mi);
    AppendConserves(s, mi, centers);
  }

  /** Whatever the matching, `extend_track` keeps every center of both
      sets, copies `tend`, and leaves `head`, `tstart` and `dt` alone. */
  lemma ExtendedSoundlyConserves(s1: TrackSet, s2: TrackSet, s': TrackSet, thr: int, dist: Dist)
    requires TailOK(s1) && HeadOK(s2) && ExtendedSoundly(s1, s2, s', thr, dist)
    ensures TotalLen(s'.tracks) == TotalLen(s1.tracks) + TotalLen(s2.tracks)
    ensures s'.head == s1.head && s'.tstart == s1.tstart && s'.dt == s1.dt && s'.tend == s2.tend
  {
    var mi :| MatchesSound(s1, Firsts(s2), thr, dist, mi) && s' == ExtendSpec(s1, s2, mi);
    SoundInRange(s1, Firsts(s2), thr, dist, mi);
    ExtendConserves(s1, s2, mi);
  }

  /** Appending with any sound matching keeps `LinkerInv`. */
  lemma AppendKeepsInvSound(s: TrackSet, centers: seq<Center>, thr: int, dist: Dist, mi: seq<Option<int>>)
    requires LinkerInv(s) && |centers| > 0 && MatchesSound(s, centers, thr, dist, mi)
    ensures LinkerInv(AppendSpec(s, mi, centers))
  {
    SoundInRange(s, centers, thr, dist, mi);
    AppendEnds(s, mi, centers);
    AppendKeepsHead(s, mi, centers);
  }

  // ---------------------------------------------------------------------
  // extend_track

  /** `{d: matched_index[i] for i, d in enumerate(head)}`: a repeated key
      keeps the value of its last occurrence. */
  function BuildDict(keys: seq<int>, vals: seq<Option<int>>): (m: map<int, Option<int>>)
    requires |keys| == |vals|
    ensures forall k :: k in m <==> k in keys
  {
    if keys == [] then map[]
    else BuildDict(keys[..|keys| - 1], vals[..|vals| - 1])[keys[|keys| - 1] := vals[|vals| - 1]]
  }

  /** `dict.get(i)`. */
  function DictGet(m: map<int, Option<int>>, i: int): Option<int>
  {
    if i in m then m[i] else None
  }

  /** The test of pystormtracker/linker.py:121,
      `i in matched_dict and matched_dict[i] is not None`, selects the same
      value as `matched_dict.get(i)`. */
  lemma Py2LookupAgrees(m: map<int, Option<int>>, i: int)
    ensures (i in m && m[i].Some?) <==> DictGet(m, i).Some?
    ensures i in m && m[i].Some? ==> m[i] == DictGet(m, i)
  {
  }

  /** The value stored under a key is that of its last occurrence. */
  lemma {:induction false} BuildDictLast(keys: seq<int>, vals: seq<Option<int>>, j: nat)
    requires |keys| == |vals| && j < |keys|
    requires forall j' :: j < j' < |keys| ==> keys[j'] != keys[j]
    ensures DictGet(BuildDict(keys, vals), keys[j]) == vals[j]
  {
    var n := |keys| - 1;
    if j < n {
      BuildDictLast(keys[..n], vals[..n], j);
    }
  }

  /** Every stored value comes from a position holding that key. */
  lemma {:induction false} BuildDictFrom(keys: seq<int>, vals: seq<Option<int>>, i: int)
    requires |keys| == |vals| && i in keys
    ensures exists j :: 0 <= j < |keys| && keys[j] == i && vals[j] == DictGet(BuildDict(keys, vals), i)
  {
    var n := |keys| - 1;
    if keys[n] != i {
      assert i in keys[..n];
      BuildDictFrom(keys[..n], vals[..n], i);
      var j :| 0 <= j < n && keys[..n][j] == i && vals[..n][j] == DictGet(BuildDict(keys[..n], vals[..n]), i);
      assert keys[j] == i && vals[j] == DictGet(BuildDict(keys, vals), i);
    } else {
      assert keys[n] == i && vals[n] == DictGet(BuildDict(keys, vals), i);
    }
  }

  /** The track of `tracks1` each `tracks2` track is concatenated onto, or
      None when it is appended whole (lines 89, 93). */
  function ExtendTargets(s2: TrackSet, mi: seq<Option<int>>): (targets: seq<Option<int>>)
    requires |mi| == |s2.head|
    ensures |targets| == |s2.tracks|
  {
    var md := BuildDict(s2.head, mi);
    seq(|s2.tracks|, i requires 0 <= i < |s2.tracks| => DictGet(md, i))
  }

  lemma ExtendTargetsSound(s1: TrackSet, s2: TrackSet, mi: seq<Option<int>>)
    requires |mi| == |s2.head| && MatchesInRange(s1, mi)
    ensures TargetsBelow(ExtendTargets(s2, mi), |s1.tracks|)
  {
    ExtendTargetsFrom(s2, mi);
  }

  /** Distinct matches give distinct targets. */
  lemma ExtendTargetsDistinct(s2: TrackSet, mi: seq<Option<int>>)
    requires |mi| == |s2.head|
    ensures DistinctSome(mi) ==> DistinctSome(ExtendTargets(s2, mi))
  {
    ExtendTargetsFrom(s2, mi);
  }

  /** Every target is the match of some `head` entry naming that track. */
  lemma ExtendTargetsFrom(s2: TrackSet, mi: seq<Option<int>>)
    requires |mi| == |s2.head|
    ensures forall i :: 0 <= i < |s2.tracks| && ExtendTargets(s2, mi)[i].Some? ==>
      exists j :: 0 <= j < |mi| && s2.head[j] == i && mi[j] == ExtendTargets(s2, mi)[i]
  {
    var targets := ExtendTargets(s2, mi);
    forall i | 0 <= i < |targets| && targets[i].Some?
      ensures exists j :: 0 <= j < |mi| && s2.head[j] == i && mi[j] == targets[i]
    {
      BuildDictFrom(s2.head, mi, i);
    }
  }

  /** `i in tail_dict` for each `tracks2` index. */
  function InTail(s2: TrackSet): (keep: seq<bool>)
    ensures |keep| == |s2.tracks|
    ensures forall i :: 0 <= i < |s2.tracks| ==> (keep[i] <==> i in s2.tail)
  {
    seq(|s2.tracks|, i requires 0 <= i < |s2.tracks| => i in s2.tail)
  }

  /** The entries of xs whose flag is set, in order. */
  function Select(xs: seq<int>, keep: seq<bool>): (r: seq<int>)
    requires |xs| == |keep|
    ensures |r| <= |xs|
  {
    if xs == [] then []
    else Select(xs[..|xs| - 1], keep[..|keep| - 1]) + (if keep[|keep| - 1] then [xs[|xs| - 1]] else [])
  }

  lemma SelectSnoc(xs: seq<int>, keep: seq<bool>, x: int, b: bool)
    requires |xs| == |keep|
    ensures Select(xs + [x], keep + [b]) == Select(xs, keep) + (if b then [x] else [])
  {
    assert (xs + [x])[..|xs|] == xs;
    assert (keep + [b])[..|keep|] == keep;
  }

  /** Every selected entry is a kept entry, and a selection of distinct
      values has distinct values. */
  lemma {:induction false} SelectSound(xs: seq<int>, keep: seq<bool>)
    requires |xs| == |keep|
    ensures forall v :: v in Select(xs, keep) ==> exists i :: 0 <= i < |xs| && keep[i] && xs[i] == v
    ensures Distinct(xs) ==> Distinct(Select(xs, keep))
  {
    if xs != [] {
      var n := |xs| - 1;
      SelectSound(xs[..n], keep[..n]);
      var prev := Select(xs[..n], keep[..n]);
      forall v | v in Select(xs, keep)
        ensures exists i :: 0 <= i < |xs| && keep[i] && xs[i] == v
      {
        if v in prev {
          var i :| 0 <= i < n && keep[..n][i] && xs[..n][i] == v;
          assert keep[i] && xs[i] == v;
        } else {
          assert keep[n] && xs[n] == v;
        }
      }
      if Distinct(xs) {
        assert Distinct(xs[..n]);
        var sel := Select(xs, keep);
        if keep[n] {
          assert sel == prev + [xs[n]];
          forall v | v in prev
            ensures v != xs[n]
          {
            var i :| 0 <= i < n && keep[..n][i] && xs[..n][i] == v;
            assert xs[i] == v;
          }
          forall a, b | 0 <= a < b < |sel|
            ensures sel[a] != sel[b]
          {
            if b == |prev| {
              assert sel[a] in prev;
            }
          }
        } else {
          assert sel == prev;
        }
      }
    }
  }

  /** The track set after `tracks1.extend_track(tracks2)` with matching `mi`
      of the heads of `tracks2`. */
  function ExtendSpec(s1: TrackSet, s2: TrackSet, mi: seq<Option<int>>): TrackSet
    requires |mi| == |s2.head|
  {
    var targets := ExtendTargets(s2, mi);
    var dest := Route(|s1.tracks|, targets);
    s1.(tracks := Deliver(s1.tracks, CountTrue(Nones(targets)), dest, s2.tracks),
        tail := Select(dest, InTail(s2)),
        tend := s2.tend)
  }

  /** The track list and new `tail` after the first i iterations of the
      loop of lines 89-104. */
  ghost function ExtendState(s1: TrackSet, s2: TrackSet, mi: seq<Option<int>>, i: nat): (seq<Track>, seq<int>)
    requires |mi| == |s2.head| && i <= |s2.tracks|
  {
    var targets := ExtendTargets(s2, mi);
    var dest := Route(|s1.tracks|, targets);
    (Deliver(s1.tracks, CountTrue(Nones(targets)[..i]), dest[..i], s2.tracks[..i]), Select(dest[..i], InTail(s2)[..i]))
  }

  lemma ExtendStateBounds(s1: TrackSet, s2: TrackSet, mi: seq<Option<int>>)
    requires |mi| == |s2.head|
    ensures ExtendState(s1, s2, mi, 0) == (s1.tracks, [])
    ensures ExtendState(s1, s2, mi, |s2.tracks|).0 == ExtendSpec(s1, s2, mi).tracks
    ensures ExtendState(s1, s2, mi, |s2.tracks|).1 == ExtendSpec(s1, s2, mi).tail
  {
    DeliverNothing(s1.tracks);
    var targets := ExtendTargets(s2, mi);
    RouteDone(targets, Route(|s1.tracks|, targets), s2.tracks);
    assert InTail(s2)[..|s2.tracks|] == InTail(s2);
  }

  /** One iteration of the loop of lines 89-104: track i of `tracks2` goes
      to its matched track or to a fresh one, and the receiving index joins
      the new `tail` when i is in `tail_dict`. */
  method ExtendStep(s1: TrackSet, s2: TrackSet, mi: seq<Option<int>>, i: nat,
                    tracks: seq<Track>, newTail: seq<int>, matchIdx: Option<int>, inTail: bool)
    returns (tracks': seq<Track>, newTail': seq<int>)
    requires |mi| == |s2.head| && MatchesInRange(s1, mi) && i < |s2.tracks|
    requires matchIdx == ExtendTargets(s2, mi)[i] && (inTail <==> i in s2.tail)
    requires (tracks, newTail) == ExtendState(s1, s2, mi, i)
    ensures (tracks', newTail') == ExtendState(s1, s2, mi, i + 1)
  {
    ghost var targets := ExtendTargets(s2, mi);
    ghost var dest, keep := Route(|s1.tracks|, targets), InTail(s2);
    ExtendTargetsSound(s1, s2, mi);
    var d;
    tracks', d := RouteItem(s1.tracks, targets, s2.tracks, i, tracks, matchIdx, s2.tracks[i]);
    assert dest[..i + 1] == dest[..i] + [d] && keep[..i + 1] == keep[..i] + [keep[i]];
    SelectSnoc(dest[..i], keep[..i], d, keep[i]);
    assert keep[i] == inTail;
    newTail' := newTail;
    if inTail {
      newTail' := newTail + [d];
    }
    assert ExtendState(s1, s2, mi, i + 1).0 == tracks';
    assert ExtendState(s1, s2, mi, i + 1).1 == newTail';
  }

  /** The loop of lines 89-104 over the matching `mi` of the heads. */
  method ExtendLoop(s1: TrackSet, s2: TrackSet, mi: seq<Option<int>>) returns (s': TrackSet)
    requires |mi| == |s2.head| && MatchesInRange(s1, mi)
    ensures s' == ExtendSpec(s1, s2, mi)
  {
    var matchedDict := BuildDict(s2.head, mi);
    var tailDict := set x | x in s2.tail;
    var tracks, newTail := s1.tracks, [];
    ExtendStateBounds(s1, s2, mi);
    for i := 0 to |s2.tracks|
      invariant (tracks, newTail) == ExtendState(s1, s2, mi, i)
    {
      var matchIdx := DictGet(matchedDict, i);
      tracks, newTail := ExtendStep(s1, s2, mi, i, tracks, newTail, matchIdx, i in tailDict);
    }
    s' := s1.(tracks := tracks, tail := newTail, tend := s2.tend);
  }

  /** The loop of pystormtracker/linker.py:120-128, which tests
      `i in matched_dict and matched_dict[i] is not None` instead of calling
      `get`: the same merge. */
  method ExtendLoopMembership(s1: TrackSet, s2: TrackSet, mi: seq<Option<int>>) returns (s': TrackSet)
    requires |mi| == |s2.head| && MatchesInRange(s1, mi)
    ensures s' == ExtendSpec(s1, s2, mi)
  {
    var matchedDict := BuildDict(s2.head, mi);
    var tailDict := set x | x in s2.tail;
    var tracks, newTail := s1.tracks, [];
    ExtendStateBounds(s1, s2, mi);
    for i := 0 to |s2.tracks|
      invariant (tracks, newTail) == ExtendState(s1, s2, mi, i)
    {
      var matchIdx: Option<int> := None;
      if i in matchedDict && matchedDict[i].Some? {
        matchIdx := matchedDict[i];
      }
      Py2LookupAgrees(matchedDict, i);
      tracks, newTail := ExtendStep(s1, s2, mi, i, tracks, newTail, matchIdx, i in tailDict);
    }
    s' := s1.(tracks := tracks, tail := newTail, tend := s2.tend);
  }

  /** `extend_track` keeps every center of both sets, copies `tend`, and
      leaves `head`, `tstart` and `dt` alone. */
  lemma ExtendConserves(s1: TrackSet, s2: TrackSet, mi: seq<Option<int>>)
    requires |mi| == |s2.head| && MatchesInRange(s1, mi)
    ensures var r := ExtendSpec(s1, s2, mi);
      && TotalLen(r.tracks) == TotalLen(s1.tracks) + TotalLen(s2.tracks)
      && r.head == s1.head && r.tstart == s1.tstart && r.dt == s1.dt && r.tend == s2.tend
  {
    var targets := ExtendTargets(s2, mi);
    ExtendTargetsSound(s1, s2, mi);
    RouteInRange(|s1.tracks|, targets);
    DeliverTotalLen(s1.tracks, CountTrue(Nones(targets)), Route(|s1.tracks|, targets), s2.tracks);
  }

  /** A `tracks2` track not listed in `head` is appended whole, after the
      tracks of `tracks1`. */
  lemma ExtendUnlisted(s1: TrackSet, s2: TrackSet, mi: seq<Option<int>>, i: nat)
    requires |mi| == |s2.head| && MatchesInRange(s1, mi)
    requires i < |s2.tracks| && i !in s2.head
    ensures var r := ExtendSpec(s1, s2, mi);
      exists t :: |s1.tracks| <= t < |r.tracks| && r.tracks[t] == s2.tracks[i]
  {
    var targets := ExtendTargets(s2, mi);
    var dest := Route(|s1.tracks|, targets);
    var r := ExtendSpec(s1, s2, mi);
    assert i !in BuildDict(s2.head, mi);
    assert targets[i].None?;
    ExtendTargetsSound(s1, s2, mi);
    RouteInRange(|s1.tracks|, targets);
    RouteFresh(|s1.tracks|, targets, i);
    GatherUnique(dest, s2.tracks, i);
    assert r.tracks[dest[i]] == s2.tracks[i];
  }

  /** A `tracks2` track whose first center matched (at its last `head`
      position j) is concatenated onto the matched `tracks1` track. */
  lemma ExtendMatched(s1: TrackSet, s2: TrackSet, mi: seq<Option<int>>, j: nat)
    requires |mi| == |s2.head| && MatchesInRange(s1, mi) && DistinctSome(mi)
    requires j < |s2.head| && 0 <= s2.head[j] < |s2.tracks| && mi[j].Some?
    requires forall j' :: j < j' < |s2.head| ==> s2.head[j'] != s2.head[j]
    ensures var r := ExtendSpec(s1, s2, mi);
      r.tracks[mi[j].value] == s1.tracks[mi[j].value] + s2.tracks[s2.head[j]]
  {
    var targets := ExtendTargets(s2, mi);
    var i := s2.head[j];
    BuildDictLast(s2.head, mi, j);
    assert targets[i] == mi[j];
    ExtendTargetsSound(s1, s2, mi);
    ExtendTargetsDistinct(s2, mi);
    RouteLands(s1.tracks, targets, s2.tracks, i);
  }

  /** Merging only lengthens the tracks of `tracks1` and appends tracks
      after them, and keeps its `head`: every `head` entry still names a
      non-empty track. */
  lemma ExtendKeepsHead(s1: TrackSet, s2: TrackSet, mi: seq<Option<int>>)
    requires |mi| == |s2.head| && MatchesInRange(s1, mi) && HeadOK(s1)
    ensures HeadOK(ExtendSpec(s1, s2, mi))
  {
    var targets := ExtendTargets(s2, mi);
    var r := ExtendSpec(s1, s2, mi);
    forall k | 0 <= k < |r.head|
      ensures 0 <= r.head[k] < |r.tracks| && r.tracks[r.head[k]] != []
    {
      var h := s1.head[k];
      assert r.tracks[h] == s1.tracks[h] + Gather(Route(|s1.tracks|, targets), s2.tracks, h);
    }
  }

  /** Merging keeps `LinkerInv`: the new `tail` lists, in `tracks2` order,
      the receiving track of every `tracks2` tail track, without repeats,
      and `head` still names non-empty tracks. */
  lemma ExtendKeepsInv(s1: TrackSet, s2: TrackSet, mi: seq<Option<int>>)
    requires |mi| == |s2.head| && MatchesInRange(s1, mi) && DistinctSome(mi)
    requires HeadOK(s1) && TailOK(s2)
    ensures LinkerInv(ExtendSpec(s1, s2, mi))
  {
    ExtendKeepsHead(s1, s2, mi);
    var targets := ExtendTargets(s2, mi);
    var dest := Route(|s1.tracks|, targets);
    var keep := InTail(s2);
    var r := ExtendSpec(s1, s2, mi);
    ExtendTargetsSound(s1, s2, mi);
    ExtendTargetsDistinct(s2, mi);
    RouteDistinct(|s1.tracks|, targets);
    SelectSound(dest, keep);
    forall k | 0 <= k < |r.tail|
      ensures 0 <= r.tail[k] < |r.tracks| && r.tracks[r.tail[k]] != []
    {
      assert r.tail[k] in Select(dest, keep);
      var i :| 0 <= i < |dest| && keep[i] && dest[i] == r.tail[k];
      var p :| 0 <= p < |s2.tail| && s2.tail[p] == i;
      RouteLands(s1.tracks, targets, s2.tracks, i);
    }
  }

  /** One full linking step keeps `LinkerInv`. */
  lemma ExtendKeepsLinkerInv(s1: TrackSet, s2: TrackSet, thr: int, dist: Dist)
    requires LinkerInv(s1) && LinkerInv(s2)
    ensures MatchesInRange(s1, MatchedHeads(s1, s2, thr, dist))
    ensures LinkerInv(ExtendSpec(s1, s2, MatchedHeads(s1, s2, thr, dist)))
  {
    MatchedTracksSound(s1, Firsts(s2), thr, dist);
    ExtendKeepsInv(s1, s2, MatchedHeads(s1, s2, thr, dist));
  }
}
