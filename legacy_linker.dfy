/** The `Tracks` class of src/pystormtracker/linker.py: a track container
    that links its own frames (`append_center`) and merges another set
    into itself (`extend_track`), with the threshold as a field. */
module LegacyLinker {
  import opened Util
  import TrackModel
  import opened Linking

  class Tracks {
    var tracks: seq<TrackModel.Track>
    var head: seq<int>
    var tail: seq<int>
    /** `self.threshold`. */
    const threshold: int
    /** `Center.abs_dist`, supplied from outside. */
    const dist: Dist
    var tstart: Option<int>
    var tend: Option<int>
    var dt: Option<int>

    function State(): TrackModel.TrackSet
      reads this
    {
      TrackModel.TrackSet(tracks, head, tail, tstart, tend, dt)
    }

    /** `Tracks(threshold=500.0)`: empty, all times unset. */
    constructor (threshold: int, dist: Dist)
      ensures State() == TrackModel.EmptySet
      ensures this.threshold == threshold && this.dist == dist
    {
      tracks, head, tail := [], [], [];
      this.threshold := threshold;
      this.dist := dist;
      tstart, tend, dt := None, None, None;
    }

    /** `match_center`: the mutual-nearest matching of `centers` to the
        last centers of this set's tail tracks, as track indices. */
    method MatchCenter(centers: seq<TrackModel.Center>) returns (r: seq<Option<int>>)
      requires TailOK(State())
      ensures r == MatchedTracks(State(), centers, threshold, dist)
      ensures |r| == |centers|
      ensures forall i :: 0 <= i < |r| && r[i].Some? ==> r[i].value in tail
      ensures Distinct(tail) ==> DistinctSome(r)
    {
      r := Linking.MatchCenter(State(), centers, threshold, dist);
      MatchedTracksSound(State(), centers, threshold, dist);
    }

    /** `match_track`: `match_center` on the first centers of the head
        tracks of `other`. */
    method MatchTrack(other: Tracks) returns (r: seq<Option<int>>)
      requires TailOK(State()) && HeadOK(other.State())
      ensures r == MatchedHeads(State(), other.State(), threshold, dist)
      ensures |r| == |other.head|
    {
      r := MatchCenter(Firsts(other.State()));
    }

    /** `append_center`: links one frame of centers onto this set. */
    method AppendCenter(centers: seq<TrackModel.Center>) returns (r: Result<()>)
      requires TailOK(State())
      modifies this
      ensures r.Ok? <==> |centers| > 0
      ensures r.Ok? ==>
        State() == AppendSpec(old(State()), MatchedTracks(old(State()), centers, threshold, dist), centers)
      ensures r.Err? ==> r.error == IndexError && State() == old(State()).(tail := [])
      ensures r.Ok? && old(LinkerInv(State())) ==> LinkerInv(State())
    {
      var mi := MatchCenter(centers);
      var s';
      s', r := AppendLoop(State(), mi, centers);
      if r.Ok? && LinkerInv(State()) {
        AppendKeepsInv(State(), centers, threshold, dist);
      }
      tracks, head, tail := s'.tracks, s'.head, s'.tail;
      tstart, tend, dt := s'.tstart, s'.tend, s'.dt;
    }

    /** `extend_track`: merges the tracks of `other` into this set,
        concatenating each matched head track onto its match. */
    method ExtendTrack(other: Tracks)
      requires other != this
      requires TailOK(State()) && HeadOK(other.State())
      modifies this
      ensures State()
        == ExtendSpec(old(State()), other.State(), MatchedHeads(old(State()), other.State(), threshold, dist))
      ensures old(LinkerInv(State())) && TailOK(other.State()) ==> LinkerInv(State())
    {
      var mi := MatchTrack(other);
      MatchedTracksSound(State(), Firsts(other.State()), threshold, dist);
      var s' := ExtendLoop(State(), other.State(), mi);
      if LinkerInv(State()) && TailOK(other.State()) {
        ExtendKeepsInv(State(), other.State(), mi);
      }
      tracks, tail, tend := s'.tracks, s'.tail, s'.tend;
    }
  }
}
