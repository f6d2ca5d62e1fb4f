/** The `Tracks` class of pystormtracker/linker.py (Python 2): a track container
    that links its own frames (`append_center`) and merges another set
    into itself (`extend_track`), with the threshold as a field. */
module Py2Linker {
  import opened Util
  import TrackModel
  import opened Linking

  class Tracks {
    var tracks: seq<TrackModel.Track>
    var head: seq<int>
    var tail: seq<int>
    /** `self.threshold`. */
    const threshold: int
    /** `Center.abs_dist`, supplied from outside. */
    const dist: Dist
    var tstart: Option<int>
    var tend: Option<int>
    var dt: Option<int>

    function State(): TrackModel.TrackSet
      reads this
    {
      TrackModel.TrackSet(tracks, head, tail, tstart, tend, dt)
    }

    /** `Tracks(threshold=500.0)`: empty, all times unset. */
    constructor (threshold: int, dist: Dist)
      ensures State() == TrackModel.EmptySet
      ensures this.threshold == threshold && this.dist == dist
    {
      tracks, head, tail := [], [], [];
      this.threshold := threshold;
      this.dist := dist;
      tstart, tend, dt := None, None, None;
    }

    /** `match_center`: a one-to-one matching of `centers` to the last
        centers of this set's tail tracks, as track indices; the
        mutual-nearest matching when no distances tie. */
    method MatchCenter(centers: seq<TrackModel.Center>) returns (r: seq<Option<int>>)
      requires TailOK(State())
      ensures MatchesSound(State(), centers, threshold, dist, r)
      ensures forall i :: 0 <= i < |r| && r[i].Some? ==> r[i].value in tail
      ensures DistTieFree(State(), centers, threshold, dist) ==> r == MatchedTracks(State(), centers, threshold, dist)
    {
      r := MatchCenterRebinding(State(), centers, threshold, dist);
      forall i | 0 <= i < |r| && r[i].Some?
        ensures r[i].value in tail
      {
        var k :| 0 <= k < |tail| && r[i].value == tail[k] && dist(Ends(State())[k], centers[i]) < threshold;
      }
    }

    /** `match_track`: `match_center` on the first centers of the head
        tracks of `other`. */
    method MatchTrack(other: Tracks) returns (r: seq<Option<int>>)
      requires TailOK(State()) && HeadOK(other.State())
      ensures MatchesSound(State(), Firsts(other.State()), threshold, dist, r) && |r| == |other.head|
      ensures DistTieFree(State(), Firsts(other.State()), threshold, dist) ==>
        r == MatchedHeads(State(), other.State(), threshold, dist)
    {
      r := MatchCenter(Firsts(other.State()));
    }

    /** `append_center`: links one frame of centers onto this set, with a
        sound matching, and with the mutual-nearest one when no distances
        tie. */
    method AppendCenter(centers: seq<TrackModel.Center>) returns (r: Result<()>)
      requires TailOK(State())
      modifies this
      ensures r.Ok? <==> |centers| > 0
      ensures r.Ok? ==> AppendedSoundly(old(State()), State(), centers, threshold, dist)
      ensures r.Ok? && DistTieFree(old(State()), centers, threshold, dist) ==>
        State() == AppendSpec(old(State()), MatchedTracks(old(State()), centers, threshold, dist), centers)
      ensures r.Err? ==> r.error == IndexError && State() == old(State()).(tail := [])
      ensures r.Ok? && old(LinkerInv(State())) ==> LinkerInv(State())
    {
      var mi := MatchCenter(centers);
      var s';
      s', r := AppendMatched(State(), centers, threshold, dist, mi);
      SetState(s');
    }

    /** Stores a whole track set in the fields. */
    method SetState(s: TrackModel.TrackSet)
      modifies this
      ensures State() == s
    {
      tracks, head, tail := s.tracks, s.head, s.tail;
      tstart, tend, dt := s.tstart, s.tend, s.dt;
    }

    /** `extend_track`: merges the tracks of `other` into this set,
        concatenating each matched head track onto its match; the matching
        is sound, and the mutual-nearest one when no distances tie. */
    method ExtendTrack(other: Tracks)
      requires other != this
      requires TailOK(State()) && HeadOK(other.State())
      modifies this
      ensures ExtendedSoundly(old(State()), other.State(), State(), threshold, dist)
      ensures DistTieFree(old(State()), Firsts(other.State()), threshold, dist) ==>
        State() == ExtendSpec(old(State()), other.State(), MatchedHeads(old(State()), other.State(), threshold, dist))
      ensures old(LinkerInv(State())) && TailOK(other.State()) ==> LinkerInv(State())
    {
      ghost var s0 := State();
      var mi := MatchTrack(other);
      SoundInRange(s0, Firsts(other.State()), threshold, dist, mi);
      var s' := ExtendLoopMembership(State(), other.State(), mi);
      if LinkerInv(s0) && TailOK(other.State()) {
        ExtendKeepsInv(s0, other.State(), mi);
      }
      tracks, tail, tend := s'.tracks, s'.tail, s'.tend;
      assert State() == s';
      assert MatchesSound(s0, Firsts(other.State()), threshold, dist, mi) && State() == ExtendSpec(s0, other.State(), mi);
    }
  }

  /** The body of `append_center` once the matching `mi` is computed: the
      linking loop, with what it promises for a sound matching. */
  method AppendMatched(s: TrackModel.TrackSet, centers: seq<TrackModel.Center>, thr: int, dist: Dist,
                       mi: seq<Option<int>>) returns (s': TrackModel.TrackSet, r: Result<()>)
    requires TailOK(s) && MatchesSound(s, centers, thr, dist, mi)
    requires DistTieFree(s, centers, thr, dist) ==> mi == MatchedTracks(s, centers, thr, dist)
    ensures r.Ok? <==> |centers| > 0
    ensures r.Ok? ==> AppendedSoundly(s, s', centers, thr, dist)
    ensures r.Ok? && DistTieFree(s, centers, thr, dist) ==> s' == AppendSpec(s, MatchedTracks(s, centers, thr, dist), centers)
    ensures r.Err? ==> r.error == IndexError && s' == s.(tail := [])
    ensures r.Ok? && LinkerInv(s) ==> LinkerInv(s')
  {
    SoundInRange(s, centers, thr, dist, mi);
    s', r := AppendLoop(s, mi, centers);
    if r.Ok? && LinkerInv(s) {
      AppendKeepsInvSound(s, centers, thr, dist, mi);
    }
  }
}
