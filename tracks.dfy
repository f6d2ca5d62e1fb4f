/** The track-set container of src/pystormtracker/models/tracks.py: a list of
    tracks (each a list of centers) plus the `head`, `tail`, `tstart`, `tend`
    and `dt` bookkeeping. */
module TrackModel {
  import opened Util

  /** A detected storm center. Times are frame timestamps; `lat`/`lon` are
      kept for completeness, the linker only sees them through a distance. */
  datatype Center = Center(time: int, lat: real, lon: real, value: int)

  type Track = seq<Center>

  /** The abstract value of a `Tracks` object. */
  datatype TrackSet = TrackSet(
    tracks: seq<Track>,
    head: seq<int>,
    tail: seq<int>,
    tstart: Option<int>,
    tend: Option<int>,
    dt: Option<int>)

  /** The state of a freshly constructed `Tracks()`. */
  const EmptySet := TrackSet([], [], [], None, None, None)

  /** Python list indexing: `-n <= i < n` is valid, negative indices count
      from the end; anything else raises IndexError. */
  function PyIndex(i: int, n: nat): (r: Option<nat>)
    ensures r.Some? <==> 0 <= i + n && i < n
    ensures r.Some? ==> r.value < n && (r.value == i || r.value == n + i)
    ensures 0 <= i < n ==> r == Some(i)
  {
    if 0 <= i < n then Some(i) else if 0 <= i + n && i < 0 then Some(n + i) else None
  }

  /** Total number of centers held by a list of tracks. */
  function TotalLen(ts: seq<Track>): nat
  {
    if ts == [] then 0 else TotalLen(ts[..|ts| - 1]) + |ts[|ts| - 1]|
  }

  lemma {:induction false} TotalLenAppend(a: seq<Track>, b: seq<Track>)
    ensures TotalLen(a + b) == TotalLen(a) + TotalLen(b)
    decreases |b|
  {
    if b == [] {
      assert a + b == a;
    } else {
      var b' := b[..|b| - 1];
      assert (a + b)[..|a + b| - 1] == a + b';
      TotalLenAppend(a, b');
    }
  }

  lemma {:induction false} TotalLenUpdate(ts: seq<Track>, k: nat, x: Track)
    requires k < |ts|
    ensures TotalLen(ts[k := ts[k] + x]) == TotalLen(ts) + |x|
    decreases |ts|
  {
    var n := |ts|;
    var us := ts[k := ts[k] + x];
    assert us[..n - 1] == if k == n - 1 then ts[..n - 1] else ts[..n - 1][k := ts[k] + x];
    if k < n - 1 {
      TotalLenUpdate(ts[..n - 1], k, x);
    }
  }

  class Tracks {
    var tracks: seq<Track>
    var head: seq<int>
    var tail: seq<int>
    var tstart: Option<int>
    var tend: Option<int>
    var dt: Option<int>

    function State(): TrackSet
      reads this
    {
      TrackSet(tracks, head, tail, tstart, tend, dt)
    }

    /** `Tracks()`: no tracks, empty `head`/`tail`, all times unset. */
    constructor ()
      ensures State() == EmptySet
      ensures |tracks| == 0 && head == [] && tail == []
      ensures tstart.None? && tend.None? && dt.None?
    {
      tracks, head, tail := [], [], [];
      tstart, tend, dt := None, None, None;
    }

    /** `__getitem__`: list indexing, IndexError outside `-len..len-1`. */
    method Get(index: int) returns (r: Result<Track>)
      ensures r.Ok? <==> -|tracks| <= index < |tracks|
      ensures 0 <= index < |tracks| ==> r == Ok(tracks[index])
      ensures -|tracks| <= index < 0 ==> r == Ok(tracks[|tracks| + index])
      ensures r.Err? ==> r.error == IndexError
    {
      match PyIndex(index, |tracks|)
      case Some(k) => r := Ok(tracks[k]);
      case None => r := Err(IndexError);
    }

    /** `__setitem__`: replaces exactly the indexed track. */
    method Set(index: int, value: Track) returns (r: Result<()>)
      modifies this
      ensures r.Ok? <==> -|old(tracks)| <= index < |old(tracks)|
      ensures r.Ok? ==> |tracks| == |old(tracks)|
      ensures r.Ok? ==> tracks == old(tracks)[PyIndex(index, |old(tracks)|).value := value]
      ensures r.Err? ==> r.error == IndexError && tracks == old(tracks)
      ensures head == old(head) && tail == old(tail)
      ensures tstart == old(tstart) && tend == old(tend) && dt == old(dt)
    {
      match PyIndex(index, |tracks|)
      case Some(k) =>
        tracks := tracks[k := value];
        r := Ok(());
      case None =>
        r := Err(IndexError);
    }

    /** `__iter__`: the tracks in insertion order. */
    method Iter() returns (s: seq<Track>)
      ensures |s| == |tracks| && forall i :: 0 <= i < |s| ==> s[i] == tracks[i]
    {
      s := [];
      for i := 0 to |tracks|
        invariant s == tracks[..i]
      {
        s := s + [tracks[i]];
      }
    }

    /** `__len__`. */
    method Len() returns (n: nat)
      ensures n == |tracks|
    {
      n := |tracks|;
    }

    /** `append`: adds one track at the end, earlier tracks unchanged. */
    method Append(obj: Track)
      modifies this
      ensures tracks == old(tracks) + [obj]
      ensures |tracks| == |old(tracks)| + 1 && tracks[|tracks| - 1] == obj
      ensures forall i :: 0 <= i < |old(tracks)| ==> tracks[i] == old(tracks)[i]
      ensures head == old(head) && tail == old(tail)
      ensures tstart == old(tstart) && tend == old(tend) && dt == old(dt)
    {
      tracks := tracks + [obj];
    }
  }

  /** Appending then reading back at the new last index yields the object,
      and reading any earlier index is unaffected. */
  method AppendThenGet(t: Tracks, obj: Track, i: int) returns (r: Result<Track>)
    modifies t
    ensures 0 <= i < |old(t.tracks)| ==> r == Ok(old(t.tracks)[i])
    ensures i == |old(t.tracks)| ==> r == Ok(obj)
    ensures i == -1 ==> r == Ok(obj)
  {
    t.Append(obj);
    r := t.Get(i);
  }
}
