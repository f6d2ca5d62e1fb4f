/** `SimpleLinker` of src/pystormtracker/simple/linker.py: a stateless
    linker holding only its threshold, which updates the `Tracks` objects
    it is given. */
module SimpleLinking {
  import opened Util
  import opened TrackModel
  import opened Linking

  class SimpleLinker {
    /** `self.threshold`. */
    const threshold: int
    /** `Center.abs_dist`, supplied from outside. */
    const dist: Dist

    /** `SimpleLinker(threshold=500.0)`. */
    constructor (threshold: int, dist: Dist)
      ensures this.threshold == threshold && this.dist == dist
    {
      this.threshold := threshold;
      this.dist := dist;
    }

    /** `match_center`: the mutual-nearest matching of `centers` to the
        last centers of the tail tracks, as track indices. */
    method MatchCenter(tracks: Tracks, centers: seq<Center>) returns (r: seq<Option<int>>)
      requires TailOK(tracks.State())
      ensures r == MatchedTracks(tracks.State(), centers, threshold, dist)
      ensures |r| == |centers|
      ensures forall i :: 0 <= i < |r| && r[i].Some? ==> r[i].value in tracks.tail
      ensures Distinct(tracks.tail) ==> DistinctSome(r)
    {
      r := Linking.MatchCenter(tracks.State(), centers, threshold, dist);
      MatchedTracksSound(tracks.State(), centers, threshold, dist);
    }

    /** `match_track`: `match_center` on the first centers of the head
        tracks of `tracks2`. */
    method MatchTrack(tracks1: Tracks, tracks2: Tracks) returns (r: seq<Option<int>>)
      requires TailOK(tracks1.State()) && HeadOK(tracks2.State())
      ensures r == MatchedHeads(tracks1.State(), tracks2.State(), threshold, dist)
      ensures |r| == |tracks2.head|
    {
      r := MatchCenter(tracks1, Firsts(tracks2.State()));
    }

    /** `append_center`: links one frame of centers onto `tracks`. */
    method AppendCenter(tracks: Tracks, centers: seq<Center>) returns (r: Result<()>)
      requires TailOK(tracks.State())
      modifies tracks
      ensures r.Ok? <==> |centers| > 0
      ensures r.Ok? ==>
        tracks.State() == AppendSpec(old(tracks.State()), MatchedTracks(old(tracks.State()), centers, threshold, dist), centers)
      ensures r.Err? ==> r.error == IndexError && tracks.State() == old(tracks.State()).(tail := [])
      ensures r.Ok? && old(LinkerInv(tracks.State())) ==> LinkerInv(tracks.State())
    {
      var mi := MatchCenter(tracks, centers);
      var s';
      s', r := AppendLoop(tracks.State(), mi, centers);
      if r.Ok? && LinkerInv(tracks.State()) {
        AppendKeepsInv(tracks.State(), centers, threshold, dist);
      }
      tracks.tracks, tracks.head, tracks.tail := s'.tracks, s'.head, s'.tail;
      tracks.tstart, tracks.tend, tracks.dt := s'.tstart, s'.tend, s'.dt;
    }

    /** `extend_track`: merges the tracks of `tracks2` into `tracks1`,
        concatenating each matched head track onto its match. */
    method ExtendTrack(tracks1: Tracks, tracks2: Tracks)
      requires tracks1 != tracks2
      requires TailOK(tracks1.State()) && HeadOK(tracks2.State())
      modifies tracks1
      ensures tracks1.State()
        == ExtendSpec(old(tracks1.State()), tracks2.State(),
                      MatchedHeads(old(tracks1.State()), tracks2.State(), threshold, dist))
      ensures old(LinkerInv(tracks1.State())) && TailOK(tracks2.State()) ==> LinkerInv(tracks1.State())
    {
      var mi := MatchTrack(tracks1, tracks2);
      MatchedTracksSound(tracks1.State(), Firsts(tracks2.State()), threshold, dist);
      var s' := ExtendLoop(tracks1.State(), tracks2.State(), mi);
      if LinkerInv(tracks1.State()) && TailOK(tracks2.State()) {
        ExtendKeepsInv(tracks1.State(), tracks2.State(), mi);
      }
      tracks1.tracks, tracks1.tail, tracks1.tend := s'.tracks, s'.tail, s'.tend;
    }
  }
}
