/** The driver logic of src/pystormtracker/stormtracker.py: `_link_centers`,
    which folds `append_center` over the frames, and the stripe schedule of
    `_combine_mpi_tracks`, which merges the per-rank track sets into rank 0
    pairwise along a binary tree. Message passing itself is not modelled:
    a rank's part of the schedule is the list of its sends and receives. */
module StormTracker {
  import opened Util
  import opened TrackModel
  import opened Linking
  import opened SimpleLinking

  // ---------------------------------------------------------------------
  // _link_centers

  /** One `append_center` call on a track set built by the linker. */
  ghost function LinkStep(s: TrackSet, f: seq<Center>, dist: Dist): (r: Result<TrackSet>)
    requires LinkerInv(s)
    ensures r.Ok? <==> |f| > 0
    ensures r.Ok? ==> LinkerInv(r.value)
    ensures r.Err? ==> r.error == IndexError
  {
    if |f| == 0 then Err(IndexError)
    else
      AppendKeepsInv(s, f, DefaultThreshold, dist);
      Ok(AppendSpec(s, MatchedTracks(s, f, DefaultThreshold, dist), f))
  }

  /** The track set after linking `frames` in order into an empty set with
      the default threshold. An empty frame raises IndexError in
      `append_center`, which ends the run. */
  ghost function LinkSpec(frames: seq<seq<Center>>, dist: Dist): (r: Result<TrackSet>)
    ensures r.Ok? ==> LinkerInv(r.value)
    ensures r.Err? ==> r.error == IndexError
  {
    if frames == [] then Ok(EmptySet)
    else
      var prev := LinkSpec(frames[..|frames| - 1], dist);
      if prev.Err? then prev else LinkStep(prev.value, frames[|frames| - 1], dist)
  }

  /** Linking fails as soon as a prefix fails. */
  lemma {:induction false} LinkSpecErrSticky(frames: seq<seq<Center>>, i: nat, dist: Dist)
    requires i <= |frames| && LinkSpec(frames[..i], dist).Err?
    ensures LinkSpec(frames, dist).Err?
    decreases |frames| - i
  {
    if i < |frames| {
      assert frames[..i + 1][..i] == frames[..i];
      LinkSpecErrSticky(frames, i + 1, dist);
    } else {
      assert frames[..i] == frames;
    }
  }

  /** `_link_centers` (lines 98-103): a fresh `Tracks`, a default-threshold
      `SimpleLinker`, and `append_center` on each frame in order. */
  method LinkCenters(frames: seq<seq<Center>>, dist: Dist) returns (tracks: Tracks, r: Result<()>)
    ensures r.Ok? <==> LinkSpec(frames, dist).Ok?
    ensures r.Ok? ==> tracks.State() == LinkSpec(frames, dist).value
    ensures r.Err? ==> r.error == IndexError
  {
    tracks := new Tracks();
    var linker := new SimpleLinker(DefaultThreshold, dist);
    r := Ok(());
    for i := 0 to |frames|
      invariant r.Ok? && LinkSpec(frames[..i], dist) == Ok(tracks.State())
    {
      assert frames[..i + 1][..i] == frames[..i];
      r := linker.AppendCenter(tracks, frames[i]);
      if r.Err? {
        LinkSpecUnfold(frames[..i + 1], dist);
        LinkSpecErrSticky(frames, i + 1, dist);
        return;
      }
    }
    assert frames[..|frames|] == frames;
  }

  /** No frame is empty. */
  predicate NoEmptyFrame(frames: seq<seq<Center>>)
  {
    forall i :: 0 <= i < |frames| ==> |frames[i]| > 0
  }

  lemma NoEmptyFrameSnoc(frames: seq<seq<Center>>)
    requires frames != []
    ensures NoEmptyFrame(frames)
      <==> NoEmptyFrame(frames[..|frames| - 1]) && |frames[|frames| - 1]| > 0
  {
    var n := |frames| - 1;
    if NoEmptyFrame(frames[..n]) && |frames[n]| > 0 {
      forall i | 0 <= i < |frames|
        ensures |frames[i]| > 0
      {
        if i < n {
          assert frames[..n][i] == frames[i];
        }
      }
    }
  }

  lemma LinkSpecUnfold(frames: seq<seq<Center>>, dist: Dist)
    requires frames != []
    ensures LinkSpec(frames, dist).Ok?
      <==> LinkSpec(frames[..|frames| - 1], dist).Ok? && |frames[|frames| - 1]| > 0
  {
  }

  /** Linking succeeds iff no frame is empty. */
  lemma {:induction false} LinkSpecOk(frames: seq<seq<Center>>, dist: Dist)
    ensures LinkSpec(frames, dist).Ok? <==> NoEmptyFrame(frames)
  {
    if frames != [] {
      LinkSpecOk(frames[..|frames| - 1], dist);
      LinkSpecUnfold(frames, dist);
      NoEmptyFrameSnoc(frames);
    }
  }

  /** A successful run over non-empty frames ends with one successful
      `append_center` on the previous frames' track set. */
  lemma LinkSpecLast(frames: seq<seq<Center>>, dist: Dist)
    requires |frames| > 0 && LinkSpec(frames, dist).Ok?
    ensures var prev := LinkSpec(frames[..|frames| - 1], dist);
      && prev.Ok? && |frames[|frames| - 1]| > 0
      && LinkSpec(frames, dist).value
         == AppendSpec(prev.value, MatchedTracks(prev.value, frames[|frames| - 1], DefaultThreshold, dist),
                       frames[|frames| - 1])
  {
  }

  /** The time fields after one `append_center` (lines 77-83 of
      src/pystormtracker/simple/linker.py). */
  lemma AppendTimes(s: TrackSet, mi: seq<Option<int>>, centers: seq<Center>)
    requires |mi| == |centers| && |centers| > 0
    ensures var r := AppendSpec(s, mi, centers);
      && r.tstart == (if s.tstart.None? then Some(centers[0].time) else s.tstart)
      && r.tend == Some(centers[0].time)
      && r.dt == (if s.tstart.Some? && s.dt.None? then Some(centers[0].time - s.tstart.value) else s.dt)
  {
  }

  /** How `append_center` on a frame at time `t` moves the time fields
      from `prev` to `s` (lines 79-83 of src/pystormtracker/simple/linker.py). */
  ghost predicate TimesAfterAppend(prev: TrackSet, s: TrackSet, t: int)
  {
    && s.tstart == (if prev.tstart.None? then Some(t) else prev.tstart)
    && s.tend == Some(t)
    && s.dt == (if prev.tstart.Some? && prev.dt.None? then Some(t - prev.tstart.value) else prev.dt)
  }

  /** The time fields after linking one more frame. */
  lemma LinkStepTimes(frames: seq<seq<Center>>, dist: Dist)
    requires |frames| > 0 && LinkSpec(frames, dist).Ok?
    ensures var prev := LinkSpec(frames[..|frames| - 1], dist);
      && prev.Ok? && |frames[|frames| - 1]| > 0
      && TimesAfterAppend(prev.value, LinkSpec(frames, dist).value, frames[|frames| - 1][0].time)
  {
    var n := |frames| - 1;
    LinkSpecLast(frames, dist);
    var prev := LinkSpec(frames[..n], dist).value;
    AppendTimes(prev, MatchedTracks(prev, frames[n], DefaultThreshold, dist), frames[n]);
  }

  /** The times after a run, in terms of the frames: `tstart` the first
      frame's time, `tend` the last frame's, `dt` the gap between the first
      two frames (unset after a single frame). */
  ghost predicate TimesFromFrames(s: TrackSet, frames: seq<seq<Center>>)
  {
    && |frames| > 0 && |frames[0]| > 0 && |frames[|frames| - 1]| > 0
    && (|frames| > 1 ==> |frames[1]| > 0)
    && s.tstart == Some(frames[0][0].time)
    && s.tend == Some(frames[|frames| - 1][0].time)
    && s.dt == (if |frames| == 1 then None else Some(frames[1][0].time - frames[0][0].time))
  }

  /** One frame more keeps the times following the frames. */
  lemma TimesStep(prev: TrackSet, s: TrackSet, frames: seq<seq<Center>>)
    requires |frames| > 1 && |frames[|frames| - 1]| > 0
    requires TimesFromFrames(prev, frames[..|frames| - 1])
    requires TimesAfterAppend(prev, s, frames[|frames| - 1][0].time)
    ensures TimesFromFrames(s, frames)
  {
    var n := |frames| - 1;
    assert frames[..n][0] == frames[0];
    if n >= 2 {
      assert frames[..n][1] == frames[1];
    }
  }

  /** After a successful run over non-empty frames the times follow the
      frames. */
  lemma {:induction false} LinkSpecTimes(frames: seq<seq<Center>>, dist: Dist)
    requires |frames| > 0 && LinkSpec(frames, dist).Ok?
    ensures TimesFromFrames(LinkSpec(frames, dist).value, frames)
  {
    var n := |frames| - 1;
    LinkStepTimes(frames, dist);
    if n == 0 {
      assert frames[..n] == [];
    } else {
      LinkSpecTimes(frames[..n], dist);
      TimesStep(LinkSpec(frames[..n], dist).value, LinkSpec(frames, dist).value, frames);
    }
  }

  /** After linking non-empty frames, none of them empty, the open tracks
      end in the last frame's centers, in order, and the times are as in
      `LinkSpecTimes`. */
  lemma LinkSpecFrames(frames: seq<seq<Center>>, dist: Dist)
    requires |frames| > 0 && NoEmptyFrame(frames)
    ensures LinkSpec(frames, dist).Ok?
    ensures var s := LinkSpec(frames, dist).value;
      && s.tstart == Some(frames[0][0].time)
      && s.tend == Some(frames[|frames| - 1][0].time)
      && s.dt == (if |frames| == 1 then None else Some(frames[1][0].time - frames[0][0].time))
      && Ends(s) == frames[|frames| - 1]
  {
    var n := |frames| - 1;
    LinkSpecOk(frames, dist);
    LinkSpecLast(frames, dist);
    var prev := LinkSpec(frames[..n], dist).value;
    AppendKeepsInv(prev, frames[n], DefaultThreshold, dist);
    MatchedTracksSound(prev, frames[n], DefaultThreshold, dist);
    AppendEnds(prev, MatchedTracks(prev, frames[n], DefaultThreshold, dist), frames[n]);
    LinkSpecTimes(frames, dist);
  }

  /** Total number of centers over all frames. */
  function CenterCount(frames: seq<seq<Center>>): nat
  {
    if frames == [] then 0 else CenterCount(frames[..|frames| - 1]) + |frames[|frames| - 1]|
  }

  /** Linking keeps every detected center, each exactly once. */
  lemma {:induction false} LinkSpecConserves(frames: seq<seq<Center>>, dist: Dist)
    requires LinkSpec(frames, dist).Ok?
    ensures TotalLen(LinkSpec(frames, dist).value.tracks) == CenterCount(frames)
  {
    if frames != [] {
      var n := |frames| - 1;
      var prev := LinkSpec(frames[..n], dist);
      LinkSpecConserves(frames[..n], dist);
      AppendKeepsInv(prev.value, frames[n], DefaultThreshold, dist);
      AppendConserves(prev.value, MatchedTracks(prev.value, frames[n], DefaultThreshold, dist), frames[n]);
    }
  }

  // ---------------------------------------------------------------------
  // Stripe schedule of _combine_mpi_tracks

  /** Line 113: at stripe s the rank sends its set to `rank - s/2`. */
  predicate Sends(rank: nat, stripe: nat)
    requires stripe > 0
  {
    rank % stripe == stripe / 2
  }

  /** Line 115: at stripe s the rank receives the set of `rank + s/2`, if
      that rank exists. */
  predicate Receives(rank: nat, size: nat, stripe: nat)
    requires stripe > 0
  {
    rank % stripe == 0 && rank + stripe / 2 < size
  }

  /** One step of a rank's part of the schedule: `Send` hands its set to
      `dest`; `Recv` takes the set of `source` and extends its own set with
      it (line 117). `tag` is the stripe. */
  datatype Action = Send(dest: int, tag: nat) | Recv(source: nat, tag: nat)

  /** What a rank does at one stripe (lines 113-117). */
  function StripeAction(rank: nat, size: nat, stripe: nat): (a: seq<Action>)
    requires stripe > 0
    ensures |a| <= 1
  {
    if Sends(rank, stripe) then [Send(rank - stripe / 2, stripe)]
    else if Receives(rank, size, stripe) then [Recv(rank + stripe / 2, stripe)]
    else []
  }

  /** A rank's actions over the stripes 2, 4, ..., 2^n. */
  function ScheduleN(rank: nat, size: nat, n: nat): (acts: seq<Action>)
    ensures |acts| <= n
  {
    if n == 0 then [] else ScheduleN(rank, size, n - 1) + StripeAction(rank, size, Pow2(n))
  }

  /** Stripes run by `while nstripe <= size`: the largest n with
      2^n <= size, that is floor(log2(size)) (0 below size 2). */
  function AsWrittenStripes(size: nat): nat
  {
    if size < 2 then 0 else 1 + AsWrittenStripes(size / 2)
  }

  /** Stripes needed for rank 0 to absorb every rank: the smallest n with
      size <= 2^n, that is ceil(log2(size)) (0 up to size 1). */
  function FixedStripes(size: nat): nat
  {
    if size <= 1 then 0 else 1 + FixedStripes((size + 1) / 2)
  }

  /** The loop test at line 112 holds at stripe 2^j exactly for the first
      `AsWrittenStripes(size)` stripes. */
  lemma {:induction false} AsWrittenStripesCount(size: nat, j: nat)
    requires j >= 1
    ensures Pow2(j) <= size <==> j <= AsWrittenStripes(size)
  {
    if size >= 2 && j >= 2 {
      AsWrittenStripesCount(size / 2, j - 1);
    }
  }

  /** The corrected loop test `nstripe // 2 < size` holds at stripe 2^j
      exactly for the first `FixedStripes(size)` stripes. */
  lemma {:induction false} FixedStripesCount(size: nat, j: nat)
    requires j >= 1
    ensures Pow2(j - 1) < size <==> j <= FixedStripes(size)
  {
    if size >= 2 && j >= 2 {
      FixedStripesCount((size + 1) / 2, j - 1);
      assert Pow2(j - 1) == 2 * Pow2(j - 2);
    }
  }

  /** `_combine_mpi_tracks` as written (lines 111-118): rank `rank`'s
      actions, stripe by stripe. */
  method CombineSchedule(rank: nat, size: nat) returns (actions: seq<Action>)
    ensures actions == ScheduleN(rank, size, AsWrittenStripes(size))
  {
    var nstripe := 2;
    ghost var k: nat := 1;
    actions := [];
    AsWrittenStripesCount(size, 1);
    while nstripe <= size
      invariant k >= 1 && nstripe == Pow2(k)
      invariant k - 1 <= AsWrittenStripes(size)
      invariant actions == ScheduleN(rank, size, k - 1)
      decreases size - nstripe
    {
      AsWrittenStripesCount(size, k);
      if rank % nstripe == nstripe / 2 {
        actions := actions + [Send(rank - nstripe / 2, nstripe)];
      } else if rank % nstripe == 0 && rank + nstripe / 2 < size {
        actions := actions + [Recv(rank + nstripe / 2, nstripe)];
      }
      nstripe := nstripe * 2;
      k := k + 1;
    }
    AsWrittenStripesCount(size, k);
  }

  /** The schedule with the loop test corrected to `nstripe // 2 < size`. */
  method CombineScheduleFixed(rank: nat, size: nat) returns (actions: seq<Action>)
    ensures actions == ScheduleN(rank, size, FixedStripes(size))
  {
    var nstripe := 2;
    ghost var k: nat := 1;
    actions := [];
    FixedStripesCount(size, 1);
    while nstripe / 2 < size
      invariant k >= 1 && nstripe == Pow2(k)
      invariant k - 1 <= FixedStripes(size)
      invariant actions == ScheduleN(rank, size, k - 1)
      decreases size - nstripe / 2
    {
      FixedStripesCount(size, k);
      if rank % nstripe == nstripe / 2 {
        actions := actions + [Send(rank - nstripe / 2, nstripe)];
      } else if rank % nstripe == 0 && rank + nstripe / 2 < size {
        actions := actions + [Recv(rank + nstripe / 2, nstripe)];
      }
      nstripe := nstripe * 2;
      k := k + 1;
    }
    FixedStripesCount(size, k);
  }

  /** A rank `h` past a multiple of `2h` sits `h` above that multiple. */
  lemma ShiftDown(x: int, s: int, h: int)
    requires h > 0 && s == 2 * h && x >= 0 && x % s == h
    ensures s / 2 == h && x >= h && (x - h) % s == 0
  {
    var q := x / s;
    assert x == q * s + h;
    MulSign(q, s);
    ModUnique(x - h, s, q, 0);
  }

  lemma SendPaired(size: nat, k: nat, rank: nat)
    requires k >= 1 && rank < size && Sends(rank, Pow2(k))
    ensures rank >= Pow2(k - 1) && Receives(rank - Pow2(k - 1), size, Pow2(k))
  {
    var s, h := Pow2(k), Pow2(k - 1);
    assert s == 2 * h;
    ShiftDown(rank, s, h);
  }

  lemma ReceivePaired(size: nat, k: nat, rank: nat)
    requires k >= 1 && Receives(rank, size, Pow2(k))
    ensures rank + Pow2(k - 1) < size && Sends(rank + Pow2(k - 1), Pow2(k))
  {
    var s, h := Pow2(k), Pow2(k - 1);
    var q := rank / s;
    assert rank == q * s;
    ModAddMultiple(q, s, h);
    ModUnique(h, s, 0, h);
  }

  /** Every send has its receive in the same stripe and vice versa; the
      set always travels from the higher rank to the lower. */
  lemma StripePairing(size: nat, k: nat, rank: nat)
    requires k >= 1 && rank < size
    ensures Sends(rank, Pow2(k)) ==>
      rank >= Pow2(k - 1) && Receives(rank - Pow2(k - 1), size, Pow2(k))
    ensures Receives(rank, size, Pow2(k)) ==>
      rank + Pow2(k - 1) < size && Sends(rank + Pow2(k - 1), Pow2(k))
  {
    if Sends(rank, Pow2(k)) {
      SendPaired(size, k, rank);
    }
    if Receives(rank, size, Pow2(k)) {
      ReceivePaired(size, k, rank);
    }
  }

  /** Rank 0 never sends. */
  lemma RootNeverSends(k: nat)
    requires k >= 1
    ensures !Sends(0, Pow2(k))
  {
    assert Pow2(k) == 2 * Pow2(k - 1);
  }

  /** Once a rank has sent, it neither sends nor receives at a later
      stripe. */
  lemma SenderDone(rank: nat, size: nat, j: nat, k: nat)
    requires 1 <= j < k
    ensures Sends(rank, Pow2(j)) ==> !Sends(rank, Pow2(k)) && !Receives(rank, size, Pow2(k))
  {
    var a := Pow2(j);
    Pow2Add(j, k - j);
    Pow2Add(j, k - 1 - j);
    assert Pow2(k) == a * Pow2(k - j) && Pow2(k - 1) == a * Pow2(k - 1 - j);
    ModMod(rank, a, Pow2(k - j));
    ModAddMultiple(Pow2(k - 1 - j), a, 0);
    ModAddMultiple(0, a, 0);
    assert a == 2 * Pow2(j - 1);
  }

  /** Without a send at stripes 1..n, a rank's schedule holds receives only. */
  lemma {:induction false} NoSendOnlyReceives(rank: nat, size: nat, n: nat)
    requires forall j :: 1 <= j <= n ==> !Sends(rank, Pow2(j))
    ensures forall i :: 0 <= i < |ScheduleN(rank, size, n)| ==> ScheduleN(rank, size, n)[i].Recv?
  {
    if n > 0 {
      NoSendOnlyReceives(rank, size, n - 1);
    }
  }

  /** After a send at stripe j the schedule does not grow. */
  lemma {:induction false} FrozenAfterSend(rank: nat, size: nat, j: nat, n: nat)
    requires 1 <= j <= n && Sends(rank, Pow2(j))
    ensures ScheduleN(rank, size, n) == ScheduleN(rank, size, j)
  {
    if n > j {
      FrozenAfterSend(rank, size, j, n - 1);
      SenderDone(rank, size, j, n);
    }
  }

  /** Over any number of stripes a rank sends at most once, and a send is
      its last action. */
  lemma SendIsLast(rank: nat, size: nat, n: nat)
    ensures var acts := ScheduleN(rank, size, n);
      forall i :: 0 <= i < |acts| && acts[i].Send? ==> i == |acts| - 1
  {
    var acts := ScheduleN(rank, size, n);
    if j :| 1 <= j <= n && Sends(rank, Pow2(j)) {
      forall j' | 1 <= j' <= j - 1
        ensures !Sends(rank, Pow2(j'))
      {
        SenderDone(rank, size, j', j);
      }
      NoSendOnlyReceives(rank, size, j - 1);
      FrozenAfterSend(rank, size, j, n);
    } else {
      NoSendOnlyReceives(rank, size, n);
    }
  }

  /** Rank 0 receives at every stripe the loop runs, from ranks 1, 2, 4,
      ..., and never sends. */
  lemma {:induction false} RootSchedule(size: nat, n: nat)
    requires n == 0 || Pow2(n - 1) < size
    ensures |ScheduleN(0, size, n)| == n
    ensures forall i :: 0 <= i < n ==> ScheduleN(0, size, n)[i] == Recv(Pow2(i), Pow2(i + 1))
  {
    if n > 0 {
      RootNeverSends(n);
      assert Pow2(n) == 2 * Pow2(n - 1);
      if n > 1 {
        assert Pow2(n - 1) == 2 * Pow2(n - 2);
      }
      RootSchedule(size, n - 1);
    }
  }

  // ---------------------------------------------------------------------
  // Which partitions end up where

  /** The partitions rank `r`'s track set holds, in the order they were
      merged, after stripes 1..n with every rank following the schedule:
      a receiver appends the holdings of the rank it receives from. */
  function Gathered(size: nat, n: nat, r: nat): (g: seq<nat>)
    requires r < size
    ensures |g| >= 1
  {
    if n == 0 then [r]
    else if Receives(r, size, Pow2(n)) then Gathered(size, n - 1, r) + Gathered(size, n - 1, r + Pow2(n) / 2)
    else Gathered(size, n - 1, r)
  }

  /** A rank that is a multiple of the stripe receives iff its partner
      exists. */
  lemma ReceivesAtMultiple(size: nat, n: nat, q: nat, r: nat)
    requires n >= 1 && r == q * Pow2(n)
    ensures Pow2(n) / 2 == Pow2(n - 1)
    ensures Receives(r, size, Pow2(n)) <==> r + Pow2(n - 1) < size
  {
    ModUnique(r, Pow2(n), q, 0);
    assert Pow2(n) == 2 * Pow2(n - 1);
  }

  /** One stripe of `Gathered`, for a rank that is a multiple of 2^n. */
  lemma GatheredStep(size: nat, n: nat, q: nat, r: nat)
    requires n >= 1 && r == q * Pow2(n) && r < size
    ensures var h := Pow2(n - 1);
      Gathered(size, n, r)
        == if r + h < size then Gathered(size, n - 1, r) + Gathered(size, n - 1, r + h)
           else Gathered(size, n - 1, r)
  {
    ReceivesAtMultiple(size, n, q, r);
  }

  lemma StripeIndices(q: nat, n: nat, r: nat)
    requires n >= 1 && r == q * Pow2(n)
    ensures r == (2 * q) * Pow2(n - 1)
    ensures r + Pow2(n - 1) == (2 * q + 1) * Pow2(n - 1)
    ensures Pow2(n) == 2 * Pow2(n - 1)
  {
  }

  /** After n stripes, each rank that is a multiple of 2^n holds the
      partitions from itself up to the next multiple of 2^n (or to the
      last rank), in increasing order: time order, since partitions cover
      increasing time ranges. */
  lemma {:induction false} GatheredRange(size: nat, n: nat, q: nat, r: nat)
    requires r == q * Pow2(n) && r < size
    ensures Gathered(size, n, r) == Range(r, Min(r + Pow2(n), size))
  {
    if n == 0 {
      assert Range(r, r + 1) == [r] + Range(r + 1, r + 1);
    } else {
      var h := Pow2(n - 1);
      StripeIndices(q, n, r);
      GatheredStep(size, n, q, r);
      GatheredRange(size, n - 1, 2 * q, r);
      if r + h < size {
        assert Min(r + h, size) == r + h;
        GatheredRange(size, n - 1, 2 * q + 1, r + h);
        RangeSplit(r, r + h, Min(r + 2 * h, size));
      } else {
        assert Min(r + h, size) == size == Min(r + 2 * h, size);
      }
    }
  }

  /** Rank 0 after n stripes. */
  lemma GatheredRoot(size: nat, n: nat)
    requires size >= 1
    ensures Gathered(size, n, 0) == Range(0, Min(Pow2(n), size))
  {
    GatheredRange(size, n, 0, 0);
  }

  /** As written, rank 0 ends with the partitions 0 .. 2^n - 1 where
      2^n <= size < 2^(n+1): all of them only when size is a power of two. */
  lemma RootGathersAsWritten(size: nat)
    requires size >= 1
    ensures var n := AsWrittenStripes(size);
      && Pow2(n) <= size < 2 * Pow2(n)
      && Gathered(size, n, 0) == Range(0, Pow2(n))
  {
    var n := AsWrittenStripes(size);
    if n >= 1 {
      AsWrittenStripesCount(size, n);
    }
    AsWrittenStripesCount(size, n + 1);
    assert Pow2(n + 1) == 2 * Pow2(n);
    GatheredRoot(size, n);
  }

  /** With a power-of-two number of ranks, every partition reaches rank 0,
      in order. */
  lemma PowerOfTwoGathersAll(m: nat)
    ensures AsWrittenStripes(Pow2(m)) == m
    ensures Gathered(Pow2(m), m, 0) == Range(0, Pow2(m))
  {
    var size := Pow2(m);
    if m >= 1 {
      AsWrittenStripesCount(size, m);
    }
    AsWrittenStripesCount(size, m + 1);
    RootGathersAsWritten(size);
  }

  /** Three ranks: one stripe runs, rank 2 neither sends nor receives, and
      rank 0 ends without partition 2. */
  lemma ThreeRanksLoseOne()
    ensures AsWrittenStripes(3) == 1
    ensures ScheduleN(2, 3, AsWrittenStripes(3)) == []
    ensures Gathered(3, AsWrittenStripes(3), 0) == [0, 1]
  {
    assert Pow2(1) == 2;
    assert Gathered(3, 0, 0) == [0] && Gathered(3, 0, 1) == [1];
  }

  /** With the corrected loop test, rank 0 ends with every partition, in
      order, for any number of ranks. */
  lemma RootGathersAllFixed(size: nat)
    requires size >= 1
    ensures Gathered(size, FixedStripes(size), 0) == Range(0, size)
  {
    var n := FixedStripes(size);
    FixedStripesCount(size, n + 1);
    GatheredRoot(size, n);
  }

  /** The correction changes nothing when size is a power of two. */
  lemma FixedAgreesOnPowersOfTwo(m: nat)
    ensures FixedStripes(Pow2(m)) == m == AsWrittenStripes(Pow2(m))
  {
    var size := Pow2(m);
    if m >= 1 {
      FixedStripesCount(size, m);
      assert Pow2(m) == 2 * Pow2(m - 1);
    }
    FixedStripesCount(size, m + 1);
    PowerOfTwoGathersAll(m);
  }
}
