# PyStormTracker core in Dafny

PyStormTracker finds the centers of storms, which are the local extrema of a
gridded field such as sea-level pressure. It then links the centers of
consecutive time steps into tracks. This project models the core of that
pipeline and proves properties of the model:

- **Detection.** The gridded detectors `SimpleDetector`, the older `RectGrid`
  and the `pytrack` lat/lon functions. A detector reads frames of one
  variable over an optional time range and splits that range among workers.
  For each frame it applies the neighbourhood extremum test with periodic
  ("wrap") boundaries and clears the polar rows. It then removes duplicate
  centers with a Laplacian-maximum filter and lists the surviving cells as
  centers.
- **Linking.** The mutual-nearest-neighbour matching `match_center`.
  `append_center` links one frame onto a track set; `extend_track` merges two
  track sets. The model covers the stateless `SimpleLinker` and the two older
  `Tracks` classes that carry the same loops, over the `Tracks` container.
- **Driver.** `_link_centers`, which folds `append_center` over the frames.
  Also the stripe schedule of `_combine_mpi_tracks`, which merges the
  per-rank track sets into rank 0 along a binary tree.
- **Greedy tracker.** The legacy tracker (`pystormtracker/tracker.py`, copied
  in `pytrack/tracker.py`). Each center joins the nearest track of the
  previous frame, or it opens a new track.

Modules:

- `Util`: `Option`, `Result` with the Python exception raised, and counting helpers.
- `TrackModel`: the `Tracks` container.
- `Matching`: `match_center` as a specification fold, plus the dictionary loops proved against it.
- `Linking`: the `append_center` and `extend_track` loops, and their invariants.
- `SimpleLinking`, `LegacyLinker`, `Py2Linker`: the three linker classes.
- `StormTracker`: the driver.
- `Grids`, `Extrema`, `TimeRanges`, `Detection`: shared detector logic.
- `SimpleDetection`, `RectGridDetection`, `LatLonDetection`: the three detectors.
- `GreedyTracking`: the legacy tracker.

Modelling choices:

- The great-circle distance `Center.abs_dist` is an abstract function
  `Dist = (Center, Center) -> int`, and the threshold is an integer. The
  default threshold of 500 is kept.
- Grid values are integers, and NaN is `None`. The infinity used to fill
  masked cells is a parameter `inf`. `SimpleDetector`'s methods require
  `InfFills`: `|v| + |threshold| < inf` for every unmasked value `v`. Then
  every comparison the extremum test makes with a filled cell has the same
  outcome as with `np.inf`, including `sorted(buffer)[8] - center_val >
  threshold`.
- The Laplacian of the frame's values (scipy's `laplace` with wrap
  boundaries) is an input `lap` to the duplicate-removal step.
- In `SimpleDetector` the duplicate-removal step works on floats. `Ext` is a
  finite value, +inf, -inf or NaN. Where the Laplacian's four-point stencil
  reads a filled cell, the model computes the infinity or NaN itself
  (`FilledLaplace`). It follows numpy: `inf * 0` is NaN, `max` of a window
  holding NaN is NaN, and NaN compares false.
- In maximum mode both gridded detectors rank candidates by the negated
  Laplacian. As written they rank by the Laplacian itself and so report no
  center at all; see "## Findings".
- `min(d, key=d.get)` on a tie: the current linkers run on Python 3, whose
  dicts iterate in insertion order, so the lowest key wins. The Python 2
  linker `pystormtracker/linker.py` iterates in hash order, so the model
  lets it return any key of minimal cost.
- Python exceptions are `Err` values: `IndexError`, `TypeError`,
  `ValueError`, `RuntimeError` and `ZeroDivisionError`.

## Model

| member | source | states |
|---|---|---|
| TrackModel.PyIndex | src/pystormtracker/models/tracks.py:16-17 | A list index is valid iff `-n <= i < n`. A non-negative index is itself and a negative one counts from the end. |
| TrackModel.Tracks.constructor | src/pystormtracker/models/tracks.py:8-14 | A new container has no tracks, empty `head` and `tail`, and unset `tstart`, `tend` and `dt`. |
| TrackModel.Tracks.Get | src/pystormtracker/models/tracks.py:16-17 | `tracks[i]` succeeds exactly for `-len <= i < len`. It returns the indexed track, counting negative indices from the end. Otherwise it raises IndexError. |
| TrackModel.Tracks.Set | src/pystormtracker/models/tracks.py:19-20 | `tracks[i] = v` replaces exactly the indexed track. An invalid index raises IndexError and changes nothing. No other field changes. |
| TrackModel.Tracks.Iter | src/pystormtracker/models/tracks.py:22-23 | Iteration yields the tracks in insertion order. |
| TrackModel.Tracks.Len | src/pystormtracker/models/tracks.py:25-26 | `len` is the number of tracks. |
| TrackModel.Tracks.Append | src/pystormtracker/models/tracks.py:28-29 | `append` adds one track at the end. Earlier tracks and every other field are unchanged. |
| TrackModel.AppendThenGet | src/pystormtracker/models/tracks.py:16-29 | After `append(obj)`, reading the new last index (or -1) gives `obj`. Reading any earlier index gives what it gave before. |
| Matching.FirstMinFrom | src/pystormtracker/simple/linker.py:29 | `min(db, key=db.get)` over keys inserted in ascending order is the lowest key of minimal cost. It is None only when there are no keys. |
| Matching.FirstMinUnique | src/pystormtracker/simple/linker.py:29 | A key that has minimal cost, and a strictly lower cost than every smaller key, is the one `min` returns. |
| Matching.MinKey | src/pystormtracker/simple/linker.py:29 | The scan that keeps the first strictly smaller cost returns `FirstMin`, which is a key of minimal cost. |
| Matching.RemoveKey | src/pystormtracker/simple/linker.py:36-38 | Deleting key k from every row removes k and nothing else. |
| Matching.StepSoundExtends | src/pystormtracker/simple/linker.py:28-45 | One iteration keeps the matching sound: every matched end is strictly under the threshold, and no end is used twice. It only adds matches, and only for center i. |
| Matching.PassSoundExtends | src/pystormtracker/simple/linker.py:27-45 | A pass over all centers keeps the matching sound and only adds matches. |
| Matching.PassShrinks | src/pystormtracker/simple/linker.py:24-48 | A pass that sets `has_match` strictly decreases the number of unmatched centers, so the `while True` loop terminates. |
| Matching.FixSoundExtends | src/pystormtracker/simple/linker.py:24-48 | Repeating passes until none matches keeps the matching sound and extends the start. |
| Matching.FixExtends | src/pystormtracker/simple/linker.py:24-48 | Once matched, a center stays matched to the same end. |
| Matching.MatchSpecSound | src/pystormtracker/simple/linker.py:22-48 | The result of `match_center` is one-to-one. Every matched center has its end strictly within the threshold. |
| Matching.FarCenterUnmatched | src/pystormtracker/simple/linker.py:18 | A center that no end comes strictly within the threshold of stays unmatched. |
| Matching.FixIsStable | src/pystormtracker/simple/linker.py:47-48 | When the loop stops, no iteration would change the matching. |
| Matching.MatchSpecMaximal | src/pystormtracker/simple/linker.py:24-48 | An unmatched center has either no live end, or a nearest live end whose own nearest live center is another center. |
| Matching.MutualPairSurvivesPass | src/pystormtracker/simple/linker.py:27-45 | During the first pass, until center c is reached, c stays unmatched and its strict mutual-nearest end e stays free. |
| Matching.MutualNearestMatched | src/pystormtracker/simple/linker.py:24-48 | A strict mutual-nearest pair within the threshold is always matched together, so nearest pairs are never crossed. |
| Matching.TwoStormsNotCrossed | tests/test_linker.py:53-70 | With two storms each moving a short distance, the old ends and new centers are matched straight, not crossed. |
| Matching.FillRow | src/pystormtracker/simple/linker.py:16-20 | For one end, the inner loop enters every center strictly under the threshold into both dictionaries and nothing else. |
| Matching.BuildAdjacency | src/pystormtracker/simple/linker.py:15-20 | `dforward[e]` holds exactly the centers and `dbackward[c]` exactly the ends that are strictly under the threshold. |
| Matching.LiveAfterMatch | src/pystormtracker/simple/linker.py:33-43 | Matching center i to end e removes exactly the live pairs that involve i or e. |
| Matching.MatchKeepsAdj | src/pystormtracker/simple/linker.py:35-43 | Clearing the rows of i and e, and deleting i and e from every other row, leaves the dictionaries equal to the live pairs of the new matching. |
| Matching.TryMatch | src/pystormtracker/simple/linker.py:28-45 | One iteration of the inner loop computes the specification step, keeps the dictionaries exact, and reports whether it matched. |
| Matching.MatchPass | src/pystormtracker/simple/linker.py:27-45 | One pass computes the specification pass, and `has_match` holds iff the pass changed the matching. |
| Matching.MutualMatch | src/pystormtracker/simple/linker.py:9-49 | The dictionary loop returns exactly the specified mutual-nearest matching. |
| Matching.MatchKeepsAdjStale | pystormtracker/linker.py:60-68 | In the Python 2 loop, `db = {}` and `di = {}` rebind names and do not clear rows. The rows then keep stale entries for matched centers and ends only, and the loop never reads those. |
| Matching.MinKeyAnyOrder | pystormtracker/linker.py:54 | `min(db, key=db.get)` visiting the keys in any order returns a key of minimal cost. |
| Matching.MinKeyTieFree | pystormtracker/linker.py:54 | When no two keys share the minimal cost, that key is the lowest key of minimal cost, so every iteration order agrees with Python 3. |
| Matching.MutualMinSound | pystormtracker/linker.py:52-58 | A match made by the Python 2 test (the center's nearest live end, whose nearest live center is the center) keeps the matching sound. |
| Matching.TryMatchStale | pystormtracker/linker.py:52-70 | One Python 2 iteration, with `min` returning any minimal key, keeps the dictionaries stale only on matched pairs. It either leaves the matching alone or matches center i, unmatched before, to an end that is its nearest live end and has i as its nearest live center. Without ties in the distances it computes the same specification step as the current code. |
| Matching.MatchPassStale | pystormtracker/linker.py:50-70 | One Python 2 pass only adds matches and keeps the matching sound. `has_match` holds iff the pass changed the matching. Without ties it computes the specification pass. |
| Matching.MutualMatchRebinding | pystormtracker/linker.py:30-75 | The Python 2 `match_center` terminates with a sound matching, one entry per center: one-to-one, every matched end strictly within the threshold. Without ties it returns the same matching as the current code, despite its stale dictionary rows. |
| Linking.Deliver | src/pystormtracker/simple/linker.py:92-101 | After routing, each existing track is followed by the items routed to it, in order. Each fresh track holds exactly its items. The track count grows by the number of fresh tracks. |
| Linking.DeliverOpen | src/pystormtracker/simple/linker.py:99-101 | An item routed to a fresh track appends it at index `len(tracks)`. |
| Linking.DeliverExtend | src/pystormtracker/simple/linker.py:94-97 | An item routed to an existing track extends that track only. |
| Linking.DeliverTotalLen | src/pystormtracker/simple/linker.py:92-101 | Routing conserves centers: the total is the base total plus every item's centers. |
| Linking.MatchCenter | src/pystormtracker/simple/linker.py:9-50 | `match_center` returns, for each center, the `tail` track of the end it is matched to. |
| Linking.MatchCenterRebinding | pystormtracker/linker.py:30-76 | The Python 2 `match_center` gives one entry per center. Each present entry is a `tail` track whose last center is strictly within the threshold of the center, and no track is given twice when `tail` has no repeats. Without ties it returns the same track indices as the current code. |
| Linking.MatchedTracksSound | src/pystormtracker/simple/linker.py:9-50 | There is one entry per center. Each present entry is a `tail` track whose last center is strictly within the threshold. When `tail` has no repeats, no track is given to two centers. |
| Linking.RouteFresh | src/pystormtracker/simple/linker.py:99-101 | An item without a target gets an index at or beyond the old track count, and no other item shares it. |
| Linking.RouteDistinct | src/pystormtracker/simple/linker.py:92-101 | When the targets have no repeats, the destination tracks have none either. |
| Linking.RouteInRange | src/pystormtracker/simple/linker.py:92-101 | Every destination is a track of the result. |
| Linking.RouteLands | src/pystormtracker/simple/linker.py:92-101 | An item alone at its destination is that whole fresh track, or the new suffix of its existing track. |
| Linking.RouteStepOpen | src/pystormtracker/simple/linker.py:71-72 | A step without a target appends the item as a fresh track at index `len(tracks)`. |
| Linking.RouteStepExtend | src/pystormtracker/simple/linker.py:74-75 | A step with a target extends that track. |
| Linking.RouteItem | src/pystormtracker/simple/linker.py:61-75 | One loop step takes the track list from the routing of the first i items to that of the first i+1, and yields the receiving index. |
| Linking.DeliverAllFresh | src/pystormtracker/simple/linker.py:62-65 | When every item opens its own track, the items are appended in order. |
| Linking.AppendLoop | src/pystormtracker/simple/linker.py:61-83 | For a non-empty frame, the loop computes `AppendSpec`. An empty frame empties `tail`, then raises IndexError on `centers[0]`. |
| Linking.AppendConserves | src/pystormtracker/simple/linker.py:56-83 | `append_center` adds exactly the frame's centers: no center is lost or invented. |
| Linking.AppendFirstFrame | src/pystormtracker/simple/linker.py:62-81 | On the first frame, each center opens a one-center track at the end. `head` gains, and `tail` becomes, the new indices in order. `tstart` and `tend` become the frame time. |
| Linking.AppendLaterFrame | src/pystormtracker/simple/linker.py:66-83 | On a later frame, a matched center extends its track unless the frame follows a time gap; otherwise it opens a one-center track. `head` and `tstart` stay, and `tend` moves to the frame time. `dt` is set once, on the second frame. |
| Linking.AppendEnds | src/pystormtracker/simple/linker.py:61-77 | With a one-to-one matching, the new `tail` has no repeats. Its tracks end exactly in this frame's centers, in order. |
| Linking.AppendKeepsInv | src/pystormtracker/simple/linker.py:56-83 | `append_center` with its own matching keeps the invariant: `tail` names distinct, non-empty tracks, and `head` names non-empty tracks. |
| Linking.AppendKeepsHead | src/pystormtracker/simple/linker.py:61-75 | With any matching of existing tracks, every `head` entry still names a non-empty track, including those the first frame adds. |
| Linking.AppendedSoundlyConserves | pystormtracker/linker.py:83-110 | Whichever minimal key Python 2 picks, `append_center` adds exactly the frame's centers. |
| Linking.AppendKeepsInvSound | pystormtracker/linker.py:83-110 | Whichever minimal key Python 2 picks, `append_center` keeps the invariant. |
| Linking.BuildDict | src/pystormtracker/simple/linker.py:89 | The keys of `matched_dict` are exactly the `head` entries. |
| Linking.BuildDictLast | src/pystormtracker/simple/linker.py:89 | A repeated key keeps the value of its last occurrence. |
| Linking.BuildDictFrom | src/pystormtracker/simple/linker.py:89 | Every stored value comes from a position that holds that key. |
| Linking.Py2LookupAgrees | pystormtracker/linker.py:121 | `i in matched_dict and matched_dict[i] is not None` selects the same value as `matched_dict.get(i)`. |
| Linking.ExtendTargetsDistinct | src/pystormtracker/simple/linker.py:89-95 | Distinct matches give distinct target tracks. |
| Linking.ExtendTargetsFrom | src/pystormtracker/simple/linker.py:89-93 | Every target is the match of some `head` entry that names that track. |
| Linking.InTail | src/pystormtracker/simple/linker.py:90 | `i in tail_dict` holds exactly for the indices listed in `tail`. |
| Linking.ExtendStep | src/pystormtracker/simple/linker.py:92-101 | One iteration sends track i to its matched track or to a fresh one. The receiving index joins the new `tail` iff i is in `tail_dict`. |
| Linking.ExtendLoop | src/pystormtracker/simple/linker.py:85-104 | The merge loop computes `ExtendSpec`. |
| Linking.ExtendConserves | src/pystormtracker/simple/linker.py:85-104 | Merging keeps every center of both sets. `tend` is copied from the second set, and `head`, `tstart` and `dt` are unchanged. |
| Linking.ExtendUnlisted | src/pystormtracker/simple/linker.py:98-101 | A track of the second set not listed in `head` is appended whole, after the tracks of the first set. |
| Linking.ExtendMatched | src/pystormtracker/simple/linker.py:93-95 | A matched head track is concatenated onto its matched track. |
| Linking.ExtendKeepsInv | src/pystormtracker/simple/linker.py:92-103 | The new `tail` lists, without repeats, a non-empty receiving track for every tail track of the second set, and every `head` entry of the first set still names a non-empty track. |
| Linking.ExtendKeepsLinkerInv | src/pystormtracker/simple/linker.py:85-104 | A full `extend_track` with its own matching, on two sets that both keep the invariant, keeps it. |
| Linking.ExtendKeepsHead | src/pystormtracker/simple/linker.py:92-101 | Merging only extends or appends tracks, so every `head` entry of the first set still names a non-empty track. |
| Linking.ExtendLoopMembership | pystormtracker/linker.py:114-130 | The Python 2 merge loop, with its `in`-and-`is not None` lookup, computes `ExtendSpec`. |
| Linking.ExtendedSoundlyConserves | pystormtracker/linker.py:112-133 | Whichever minimal key Python 2 picks, merging keeps every center of both sets, copies `tend` from the second set, and keeps `head`, `tstart` and `dt`. |
| SimpleLinking.SimpleLinker.constructor | src/pystormtracker/simple/linker.py:6-7 | The linker holds the given threshold. |
| SimpleLinking.SimpleLinker.MatchCenter | src/pystormtracker/simple/linker.py:9-50 | There is one entry per center. Each entry is a `tail` track, the specified matching, and one-to-one when `tail` is. |
| SimpleLinking.SimpleLinker.MatchTrack | src/pystormtracker/simple/linker.py:52-54 | `match_track` is the matching of the first centers of the head tracks, one entry per head. |
| SimpleLinking.SimpleLinker.AppendCenter | src/pystormtracker/simple/linker.py:56-83 | The track set becomes `AppendSpec` of its matching and keeps the invariant. An empty frame raises IndexError after emptying `tail`. |
| SimpleLinking.SimpleLinker.ExtendTrack | src/pystormtracker/simple/linker.py:85-104 | The first set becomes `ExtendSpec` of its matching with the second, and the invariant is kept. |
| LegacyLinker.Tracks.constructor | src/pystormtracker/linker.py:8-16 | The set starts empty, with the given threshold and all times unset. |
| LegacyLinker.Tracks.MatchCenter | src/pystormtracker/linker.py:33-75 | Same promise as `SimpleLinker.MatchCenter`, on this set. |
| LegacyLinker.Tracks.MatchTrack | src/pystormtracker/linker.py:77-80 | The matching of the other set's head centers, one entry per head. |
| LegacyLinker.Tracks.AppendCenter | src/pystormtracker/linker.py:82-110 | The set becomes `AppendSpec` of its matching. An empty frame raises IndexError after emptying `tail`. The invariant is kept. |
| LegacyLinker.Tracks.ExtendTrack | src/pystormtracker/linker.py:112-133 | This set becomes `ExtendSpec` of its matching with the other, and the invariant is kept. |
| Py2Linker.Tracks.constructor | pystormtracker/linker.py:5-13 | The set starts empty, with the given threshold and all times unset. |
| Py2Linker.Tracks.MatchCenter | pystormtracker/linker.py:30-76 | One entry per center, each a `tail` track whose last center is strictly within the threshold, one-to-one when `tail` is. Without ties, the specified matching. |
| Py2Linker.Tracks.MatchTrack | pystormtracker/linker.py:78-81 | The same promise for the other set's head centers, one entry per head. Without ties, the specified matching. |
| Py2Linker.Tracks.AppendCenter | pystormtracker/linker.py:83-110 | A non-empty frame succeeds and gives `AppendSpec` of some sound matching (so `AppendedSoundlyConserves` applies). Without ties, `AppendSpec` of the specified matching. An empty frame raises IndexError after emptying `tail`. The invariant is kept. |
| Py2Linker.AppendMatched | pystormtracker/linker.py:89-110 | Given a sound matching (the specified one when no distances tie), the linking loop gives `AppendSpec` of it for a non-empty frame and keeps the invariant. An empty frame raises IndexError after emptying `tail`. |
| Py2Linker.Tracks.ExtendTrack | pystormtracker/linker.py:112-133 | This set becomes `ExtendSpec` of some sound matching with the other; the `in`-and-`is not None` lookup agrees with `get`. Without ties, `ExtendSpec` of the specified matching. The invariant is kept when the other set's tail names non-empty tracks. |
| StormTracker.LinkStep | src/pystormtracker/stormtracker.py:101-102 | One `append_center` succeeds iff the frame is non-empty. It keeps the invariant, and otherwise raises IndexError. |
| StormTracker.LinkSpec | src/pystormtracker/stormtracker.py:98-103 | Linking the frames in order into an empty set either gives a set that satisfies the invariant, or raises IndexError. |
| StormTracker.LinkSpecErrSticky | src/pystormtracker/stormtracker.py:101-102 | Once a prefix of the frames fails, the whole run fails. |
| StormTracker.LinkCenters | src/pystormtracker/stormtracker.py:98-103 | `_link_centers` succeeds exactly when the specification does, and then leaves the specified track set. |
| StormTracker.LinkSpecOk | src/pystormtracker/stormtracker.py:101-102 | Linking succeeds iff no frame is empty. |
| StormTracker.LinkSpecLast | src/pystormtracker/stormtracker.py:101-102 | A successful run ends with one successful `append_center` of the last frame, with the default threshold, on the previous result. |
| StormTracker.AppendTimes | src/pystormtracker/simple/linker.py:77-83 | After one `append_center`: `tend` is the frame time; `tstart` is set on the first frame; `dt` is set to `tend - tstart` on the second frame only. |
| StormTracker.LinkStepTimes | src/pystormtracker/simple/linker.py:79-83 | Linking one more frame updates the time fields that way. |
| StormTracker.LinkSpecTimes | src/pystormtracker/stormtracker.py:98-103 | After a successful run, `tstart` is the first frame's time and `tend` the last frame's time. `dt` is the gap between the first two frames, or unset for a single frame. |
| StormTracker.LinkSpecFrames | src/pystormtracker/stormtracker.py:98-103 | With no empty frame, linking succeeds. The open tracks end exactly in the last frame's centers, in order, and the times are as above. |
| StormTracker.LinkSpecConserves | src/pystormtracker/stormtracker.py:98-103 | The tracks hold every detected center exactly once: total length equals the number of centers. |
| StormTracker.StripeAction | src/pystormtracker/stormtracker.py:113-117 | At one stripe a rank sends, receives, or does nothing: at most one action. |
| StormTracker.ScheduleN | src/pystormtracker/stormtracker.py:111-118 | A rank takes at most one action per stripe. |
| StormTracker.AsWrittenStripesCount | src/pystormtracker/stormtracker.py:112 | `nstripe <= size` holds at stripe 2^j exactly for the first `floor(log2 size)` stripes. |
| StormTracker.FixedStripesCount | src/pystormtracker/stormtracker.py:112 | The corrected test `nstripe // 2 < size` holds at stripe 2^j exactly for the first `ceil(log2 size)` stripes. |
| StormTracker.CombineSchedule | src/pystormtracker/stormtracker.py:111-118 | The loop as written performs exactly the specified actions of the rank, stripe by stripe. |
| StormTracker.CombineScheduleFixed | src/pystormtracker/stormtracker.py:111-118 | The loop with the corrected test performs the specified actions over `ceil(log2 size)` stripes. |
| StormTracker.SendPaired | src/pystormtracker/stormtracker.py:113-116 | Every send at stripe s goes to rank `rank - s/2`, which receives from it at that stripe. |
| StormTracker.ReceivePaired | src/pystormtracker/stormtracker.py:113-116 | Every receive at stripe s comes from rank `rank + s/2`, which exists and sends at that stripe. |
| StormTracker.StripePairing | src/pystormtracker/stormtracker.py:113-116 | Sends and receives pair up within a stripe, always from the higher rank to the lower. |
| StormTracker.RootNeverSends | src/pystormtracker/stormtracker.py:113 | Rank 0 never sends. |
| StormTracker.SenderDone | src/pystormtracker/stormtracker.py:113-115 | After a rank has sent, it neither sends nor receives at a later stripe. |
| StormTracker.NoSendOnlyReceives | src/pystormtracker/stormtracker.py:113-117 | A rank that never sends only receives. |
| StormTracker.FrozenAfterSend | src/pystormtracker/stormtracker.py:111-118 | After a send, a rank's schedule does not grow. |
| StormTracker.SendIsLast | src/pystormtracker/stormtracker.py:111-118 | A rank sends at most once, and a send is its last action. |
| StormTracker.RootSchedule | src/pystormtracker/stormtracker.py:111-118 | Rank 0 receives at every stripe the loop runs, from ranks 1, 2, 4, and so on. |
| StormTracker.Gathered | src/pystormtracker/stormtracker.py:115-117 | Every rank holds at least one partition at every stripe. |
| StormTracker.ReceivesAtMultiple | src/pystormtracker/stormtracker.py:115 | A rank that is a multiple of the stripe receives iff its partner rank exists. |
| StormTracker.GatheredStep | src/pystormtracker/stormtracker.py:115-117 | One stripe appends the partner's holdings to those of a receiving rank. |
| StormTracker.GatheredRange | src/pystormtracker/stormtracker.py:111-118 | After n stripes, a rank that is a multiple of 2^n holds the partitions from itself up to the next multiple of 2^n (or the last rank), in time order. |
| StormTracker.GatheredRoot | src/pystormtracker/stormtracker.py:111-118 | After n stripes, rank 0 holds partitions `0 .. min(2^n, size) - 1` in order. |
| StormTracker.RootGathersAsWritten | src/pystormtracker/stormtracker.py:112 | As written, rank 0 ends with partitions `0 .. 2^k - 1`, where `2^k <= size < 2^(k+1)`. That is all of them only for a power of two. |
| StormTracker.PowerOfTwoGathersAll | src/pystormtracker/stormtracker.py:111-118 | With a power-of-two number of ranks, every partition reaches rank 0, in order. |
| StormTracker.ThreeRanksLoseOne | src/pystormtracker/stormtracker.py:112 | With three ranks one stripe runs. Rank 2 does nothing and rank 0 ends without partition 2. |
| StormTracker.RootGathersAllFixed | src/pystormtracker/stormtracker.py:111-118 | With the corrected test, rank 0 ends with every partition, in order, for any number of ranks. |
| StormTracker.FixedAgreesOnPowersOfTwo | src/pystormtracker/stormtracker.py:112 | The correction changes nothing when the rank count is a power of two. |
| Grids.Wrap | src/pystormtracker/simple/detector.py:226 | A `mode="wrap"` index lies in range, and an in-range index is unchanged. |
| Grids.Window | src/pystormtracker/simple/detector.py:222-226 | The buffer `generic_filter` passes holds `size * size` values. |
| Grids.WindowAt | src/pystormtracker/simple/detector.py:186 | `reshape((size, size))`: buffer position `di*size + dj` is the neighbour at offset (di, dj). |
| Grids.WindowEntry | src/pystormtracker/simple/detector.py:186 | Each buffer entry is the neighbour at some offset within the window. |
| Grids.OriginIndex | src/pystormtracker/simple/detector.py:187 | `search_window[h, h]` is buffer position `h*size + h`. For odd sizes this is `(size*size)//2`, the origin of `_local_max_laplace`. |
| Grids.WindowCenter | src/pystormtracker/simple/detector.py:189 | The window's origin is the cell itself. |
| Grids.SeqMin | src/pystormtracker/simple/detector.py:197 | `min()` is a value of the window that is at most every value. |
| Grids.SeqMax | src/pystormtracker/simple/detector.py:199 | `max()` is a value of the window that is at least every value. |
| Grids.SortSorted | src/pystormtracker/simple/detector.py:203 | `sorted(buffer)` is ascending. |
| Grids.SortCount | src/pystormtracker/simple/detector.py:203 | `sorted(buffer)` keeps every value with its multiplicity. |
| Grids.OrderStatistic | src/pystormtracker/simple/detector.py:203 | `sorted(s)[k] <= x` iff more than k values of s are at most x. |
| Grids.MarginAbove | src/pystormtracker/simple/detector.py:203 | `sorted(s)[k] - c > threshold` iff at most k values lie within `threshold` above c. |
| TimeRanges.GetVarCheck | src/pystormtracker/simple/detector.py:65-111 | An empty time range returns None. A chart of the wrong shape raises TypeError, and one outside the time range raises IndexError. An empty tuple returns None. Otherwise the request is shifted by `trange[0]`. |
| TimeRanges.GetVarAcceptsInside | src/pystormtracker/simple/detector.py:103-109 | Every non-empty tuple inside the time range is accepted, and read at an offset of `trange[0]`. |
| TimeRanges.SplitRanges | src/pystormtracker/simple/detector.py:159-165 | `split(num)` makes `num` ranges. |
| TimeRanges.OffsetStep | src/pystormtracker/simple/detector.py:161-162 | Consecutive range bounds differ by `len // num` or one more. |
| TimeRanges.OffsetEnds | src/pystormtracker/simple/detector.py:161-162 | The bounds run from 0 to `len`. |
| TimeRanges.SplitTiles | src/pystormtracker/simple/detector.py:156-165 | The ranges tile the time span in order with no gap or overlap, each of length `len // num` or one more. |
| TimeRanges.SplitCount | src/pystormtracker/simple/detector.py:156-165 | A negative count gives no ranges and zero raises ZeroDivisionError. A positive count gives `num` ranges. |
| Detection.Read | src/pystormtracker/simple/detector.py:98-111 | Only an integer index can fail, with IndexError. Slices follow Python rules. |
| Detection.CoveredFrames | src/pystormtracker/simple/detector.py:121-124 | The covered frames start at `trange[0]` and run to `trange[1]` or to the file's last frame, whichever comes first; they lie inside the file, and `time[trange[0]:trange[1]]` is their times. |
| Detection.RangePastEndClipped | src/pystormtracker/stormtracker.py:214 | The range `(0, num)` built from `-n`, when `num` is at least the file's frame count, is accepted and covers every frame of the file. |
| Detection.ChunkOffset | src/pystormtracker/simple/detector.py:281 | Within a chunk that starts at a multiple of `chart_buffer`, frame `it` sits at `it % chart_buffer`. |
| Detection.ChunkContinues | src/pystormtracker/simple/detector.py:281-283 | Between reloads, a frame belongs to the chunk loaded last. |
| Detection.GetVarChunk | src/pystormtracker/simple/detector.py:283 | The chunk request `(a, b)` opens the file and reads file frames `base + a .. base + b`. |
| Detection.NonzeroCells | src/pystormtracker/simple/detector.py:306 | `np.transpose(extrema.nonzero())` lists exactly the non-zero cells, in row-major order. |
| Detection.NonzeroCellAt | src/pystormtracker/simple/detector.py:306 | A cell is listed iff it is non-zero. |
| Detection.CentersOf | src/pystormtracker/simple/detector.py:304-307 | One center per listed cell. |
| Detection.FilterGridCell | src/pystormtracker/simple/detector.py:222-236 | A filter output cell is the extremum test at that cell, 0 in the cleared polar rows. |
| Detection.ClearMasked | src/pystormtracker/simple/detector.py:299-300 | `extrema[chart.mask] = 0` zeroes exactly the masked cells. |
| Extrema.ExtremaFunc | src/pystormtracker/simple/detector.py:176-207 | The extremum test can only fail with IndexError. |
| Extrema.OriginIsMin | src/pystormtracker/simple/detector.py:197-199 | The center equals the window minimum (maximum) iff no window value lies below (above) it. |
| Extrema.ExtremaFuncFails | src/pystormtracker/simple/detector.py:203 | The test raises exactly for a thresholded minimum test whose center is the minimum of a window of fewer than nine cells. |
| Extrema.ExtremaNoThreshold | src/pystormtracker/simple/detector.py:195-199 | With threshold 0, a center is an extremum iff no window value lies beyond it. |
| Extrema.ExtremaMinThreshold | src/pystormtracker/simple/detector.py:200-203 | A thresholded minimum is the window minimum with at most eight values, itself included, within `threshold` of it. |
| Extrema.ExtremaMaxThreshold | src/pystormtracker/simple/detector.py:204-206 | A thresholded maximum is the window maximum, not also its minimum, with some value more than `threshold` below it. |
| Extrema.SortedFirstBelow | src/pystormtracker/simple/detector.py:206 | `sorted(buffer)[0] <= x` iff some value is at most x. |
| Extrema.MaskedExtremaFunc | src/pystormtracker/simple/detector.py:191-193 | A masked center is never an extremum; otherwise the unmasked test applies. `generic_filter` passes a filled plain array, so in the detectors this guard never fires and the model's detectors use the unmasked test. |
| Extrema.FilterFailsExactly | src/pystormtracker/simple/detector.py:222-232 | For odd sizes, the filter raises somewhere exactly for one-cell windows with a non-zero threshold in minimum mode. |
| Extrema.ZeroRows | src/pystormtracker/simple/detector.py:235-236 | Row-slice assignment zeroes exactly the rows of the slice. |
| Extrema.FilterCells | src/pystormtracker/simple/detector.py:222-232 | `generic_filter` raises iff some cell's test raises, and otherwise writes the test result at every cell. |
| Extrema.FilterRow | src/pystormtracker/simple/detector.py:222-232 | One row of the pass writes the row's results, or stops at a cell that raises. Other rows are untouched. |
| Extrema.ExtremaFilter | src/pystormtracker/simple/detector.py:209-238 | ValueError unless `size` is odd. IndexError iff the test raises. Otherwise the test at every cell, with the `size // 2` rows nearest each pole cleared (all rows when `size // 2 == 0`, since `[-0:]` is the whole array). |
| Extrema.Product | src/pystormtracker/simple/detector.py:247 | `np.multiply` keeps the grid shape. |
| Extrema.RemoveDupLaplace | src/pystormtracker/simple/detector.py:244-257 | The duplicate filter keeps the grid shape. |
| Extrema.RemoveDupKeeps | src/pystormtracker/simple/detector.py:240-257 | A cell survives iff its masked Laplacian is non-zero and no neighbour's masked Laplacian exceeds it. Equal maxima all survive. |
| Extrema.ExtMax | src/pystormtracker/simple/detector.py:242 | `buffer.max()` is NaN iff some entry is NaN. Otherwise it is an entry that no entry exceeds. |
| Extrema.ProductExt | src/pystormtracker/simple/detector.py:247 | `np.multiply` of floats by the candidate flags keeps the grid shape. |
| Extrema.RemoveDupExt | src/pystormtracker/simple/detector.py:244-257 | The duplicate filter on floats keeps the grid shape. |
| Extrema.LocalMaxExtIff | src/pystormtracker/simple/detector.py:240-242 | `buffer[origin] and buffer[origin] == buffer.max()` holds iff the centre is not 0 and every entry is a number no larger than it. A NaN anywhere makes it false, and a NaN centre is truthy but never equal to the max. |
| Extrema.RemoveDupExtKeeps | src/pystormtracker/simple/detector.py:240-257 | On floats, a cell survives iff its value in the Laplacian times the flags is not 0 and every cell of its wrapped window is a number no larger than it. |
| Extrema.RemoveDupExtCell | src/pystormtracker/simple/detector.py:240-257 | With 0/1 flags and a product of flag times l at the cell, the cell survives iff it is flagged, l is not 0 and no cell of its window exceeds l. |
| Extrema.NaNInWindowDropped | src/pystormtracker/simple/detector.py:240-257 | A NaN anywhere in a cell's window drops the cell. |
| Extrema.ExtMaxFinite | src/pystormtracker/simple/detector.py:242 | On finite values, the float maximum is the integer maximum. |
| Extrema.RemoveDupExtFinite | src/pystormtracker/simple/detector.py:244-257 | On a finite Laplacian the float filter and the integer filter agree. |
| Extrema.MaxPassAbove | src/pystormtracker/simple/detector.py:197-199 | A cell that passes the maximum-mode test is at least every cell of its window. |
| Extrema.MaxPassAtLeast | src/pystormtracker/simple/detector.py:197-199 | A window that passes the maximum-mode test has no entry above its centre. |
| Extrema.LowerNotCandidate | src/pystormtracker/simple/detector.py:294 | A cell one step from a maximum-mode candidate, and strictly below it, is not a candidate: the candidate lies in its window. |
| Extrema.LowerFailsMax | src/pystormtracker/simple/detector.py:197-199 | A cell one step from another cell and strictly below it fails the maximum-mode test. |
| Extrema.MaxPassLaplacian | src/pystormtracker/simple/detector.py:247 | A cell that passes the maximum-mode test has a Laplacian of at most 0. |
| Extrema.LowerNeighbour | src/pystormtracker/simple/detector.py:247 | A negative Laplacian has a stencil neighbour strictly below the centre. |
| Extrema.LowerBeatsCentre | src/pystormtracker/simple/detector.py:247 | A lower stencil neighbour of a maximum-mode candidate holds 0 in the Laplacian times the flags. |
| Extrema.UnflaggedZero | src/pystormtracker/simple/detector.py:247 | A cell flagged 0 holds 0 in the Laplacian times the flags. |
| Extrema.DroppedBelowNeighbour | src/pystormtracker/simple/detector.py:240-257 | A candidate is dropped when its Laplacian is 0. It is also dropped when its Laplacian is negative and a window cell holds 0. |
| Extrema.MaxModeDropsAll | src/pystormtracker/simple/detector.py:240-257 | As written, duplicate removal drops every maximum-mode candidate, given the true Laplacian at that cell. |
| Extrema.Oriented | src/pystormtracker/simple/detector.py:247 | The corrected ranking: the Laplacian as is in minimum mode, negated in maximum mode. |
| Extrema.OrientedEntry | src/pystormtracker/simple/detector.py:247 | With the negated Laplacian, a non-candidate, or a candidate whose Laplacian is no smaller, does not exceed a centre with a negative Laplacian. |
| Extrema.OrientedKeepsPeak | src/pystormtracker/simple/detector.py:240-257 | With the negated Laplacian, a maximum-mode candidate is kept when it strictly tops its stencil and no candidate in its 5 x 5 window has a smaller Laplacian. |
| SimpleDetection.Filled | src/pystormtracker/simple/detector.py:289-292 | `np.ma.filled` keeps the grid shape. |
| SimpleDetection.Candidates | src/pystormtracker/simple/detector.py:294-300 | The candidate grid has the frame's shape. |
| SimpleDetection.MaskedCandidates | src/pystormtracker/simple/detector.py:298-300 | 0 at masked cells and the filter output elsewhere is the candidate grid. |
| SimpleDetection.CandidateCell | src/pystormtracker/simple/detector.py:294-300 | A candidate cell is 0 when masked. Otherwise it is the filter output on the filled frame. |
| SimpleDetection.FrameFailsExactly | src/pystormtracker/simple/detector.py:294-302 | A frame fails exactly for an even window (ValueError) or a one-cell thresholded minimum window (IndexError). |
| SimpleDetection.FilledLaplace | src/pystormtracker/simple/detector.py:247 | `laplace(filled_chart)` as floats keeps the grid shape. The cell values are stated by `OrientedLaplace` and `LaplaceProductCell`. |
| SimpleDetection.OrientedLaplace | src/pystormtracker/simple/detector.py:247 | The Laplacian stage the model uses is `laplace(filled_chart)` unchanged in minimum mode and its negation in maximum mode. |
| SimpleDetection.Survivors | src/pystormtracker/simple/detector.py:302 | Duplicate removal keeps the frame's shape. |
| SimpleDetection.WrittenSurvivors | src/pystormtracker/simple/detector.py:302 | Duplicate removal as written keeps the frame's shape. |
| SimpleDetection.LaplaceProductCell | src/pystormtracker/simple/detector.py:247 | Cell by cell, `laplace(filled) * extrema` is NaN at a masked cell and at a non-candidate beside one. It is +inf at a candidate beside one. Elsewhere it is the Laplacian (negated in maximum mode) at a candidate and 0 at a non-candidate. |
| SimpleDetection.MaskedWindowDropped | src/pystormtracker/simple/detector.py:240-257 | A cell with a masked cell anywhere in its 5 x 5 window is never reported. |
| SimpleDetection.StencilMaskedDropped | src/pystormtracker/simple/detector.py:240-257 | A cell beside a masked cell is never reported. |
| SimpleDetection.DetectedCells | src/pystormtracker/simple/detector.py:288-306 | A cell is reported iff it is unmasked, outside the polar rows, and passes the extremum test on the filled frame. No cell of its Laplacian stencil may be masked, and its Laplacian (negated in maximum mode) must be non-zero. No cell of its wrapped 5 x 5 window of the Laplacian times the flags may exceed it or be NaN. Non-candidates count as 0, cells beside masked cells as NaN or +inf. |
| SimpleDetection.UnmaskedCellDetected | src/pystormtracker/simple/detector.py:288-306 | For an unmasked cell with an unmasked stencil: it is reported iff it is outside the polar rows and passes the test on the filled frame, its oriented Laplacian is not 0, and no cell of its 5 x 5 window of the product exceeds it. |
| SimpleDetection.UnmaskedStage | src/pystormtracker/simple/detector.py:289-302 | On an unmasked frame, filling changes nothing and the Laplacian stage is finite. Maximum-mode candidates pass the test on the frame. |
| SimpleDetection.MaxModeReportsNothing | src/pystormtracker/simple/detector.py:247 | As written, maximum mode reports no cell of an unmasked frame. |
| SimpleDetection.MaxModeKeepsPeak | src/pystormtracker/simple/detector.py:247 | Corrected, an unmasked frame's maximum-mode candidate is reported when it strictly tops its stencil and has the sharpest peak among the candidates of its 5 x 5 window. |
| SimpleDetection.StepFailsExactly | src/pystormtracker/simple/detector.py:280-309 | Every covered frame fails exactly when the first one does. |
| SimpleDetection.SimpleDetector.constructor | src/pystormtracker/simple/detector.py:12-29 | The detector holds the file and the time range, and is not open. |
| SimpleDetection.SimpleDetector.GetVar | src/pystormtracker/simple/detector.py:65-111 | `get_var` returns the specified read, and opens the file iff the checks pass. |
| SimpleDetection.SimpleDetector.Split | src/pystormtracker/simple/detector.py:141-174 | A non-integer count raises TypeError, and an open file raises RuntimeError. Otherwise there is one fresh, unopened detector per tiled range. |
| SimpleDetection.SimpleDetector.ProcessFrame | src/pystormtracker/simple/detector.py:285-307 | Filling, filtering, clearing the mask, removing duplicates on the float Laplacian and listing give the frame's centers as `DetectedCells` characterises them. |
| SimpleDetection.SimpleDetector.ChunkFrame | src/pystormtracker/simple/detector.py:281-286 | A chunk that starts at `start` holds frame `it` at offset `it - start`. |
| SimpleDetection.SimpleDetector.NextChunk | src/pystormtracker/simple/detector.py:281-283 | At each iteration the buffer holds the chunk that contains frame `it`, at offset `it % chart_buffer`. |
| SimpleDetection.SimpleDetector.LoadChunk | src/pystormtracker/simple/detector.py:283 | The reload reads the next `chart_buffer` frames, or up to the last one. |
| SimpleDetection.SimpleDetector.DetectStep | src/pystormtracker/simple/detector.py:280-309 | One iteration takes frame `it` from the buffered chunk and yields its centers, as if it had been read alone. |
| SimpleDetection.SimpleDetector.Detect | src/pystormtracker/simple/detector.py:259-311 | An empty time range gives `[]`. Otherwise there is one center list per covered frame (a range past the file's end is clipped to its last frame), equal to reading each frame alone. It fails iff the window is even or a one-cell thresholded minimum. |
| RectGridDetection.RectFrameFailsExactly | pystormtracker/detector.py:284-285 | A frame fails exactly for an even window or a one-cell thresholded minimum window. |
| RectGridDetection.RectDetectedCells | pystormtracker/detector.py:282-288 | A cell is reported iff it is outside the polar rows and passes the test on the raw frame. Its Laplacian (negated in maximum mode) must be non-zero, and no cell of its wrapped 5 x 5 window of the Laplacian times the flags may exceed it. Non-candidates count as 0. The mask is not consulted. |
| RectGridDetection.FilterGridMax | pystormtracker/detector.py:284 | The maximum-mode filter flags only cells that pass the test. |
| RectGridDetection.RectMaxModeReportsNothing | pystormtracker/detector.py:257 | As written, maximum mode reports no cell. |
| RectGridDetection.RectMaxModeKeepsPeak | pystormtracker/detector.py:257 | Corrected, a maximum-mode candidate is reported when it strictly tops its stencil and has the sharpest peak among the candidates of its 5 x 5 window. |
| RectGridDetection.UnmaskedFramesAgree | pystormtracker/detector.py:284-288 | On a frame with no masked cell, `RectGrid` and `SimpleDetector` report the same centers. |
| RectGridDetection.RectStepFailsExactly | pystormtracker/detector.py:275-289 | Every covered frame fails exactly when the first one does. |
| RectGridDetection.RectGrid.constructor | pystormtracker/detector.py:88-98 | The grid holds the file and the time range, and is not open. |
| RectGridDetection.RectGrid.GetVar | pystormtracker/detector.py:115-156 | `get_var` returns the specified read, and opens the file iff the checks pass. |
| RectGridDetection.RectGrid.Split | pystormtracker/detector.py:186-213 | TypeError, RuntimeError, or one fresh, unopened grid per tiled range. |
| RectGridDetection.RectGrid.ProcessFrame | pystormtracker/detector.py:282-288 | Filtering the raw frame, removing duplicates and listing give the specified centers. |
| RectGridDetection.RectGrid.ChunkFrame | pystormtracker/detector.py:279-282 | A chunk that starts at `start` holds frame `it` at offset `it - start`. |
| RectGridDetection.RectGrid.NextChunk | pystormtracker/detector.py:279-281 | The buffer holds the chunk that contains frame `it`, at offset `it % chart_buffer`. |
| RectGridDetection.RectGrid.LoadChunk | pystormtracker/detector.py:281 | The reload reads the next `chart_buffer` frames, or up to the last one. |
| RectGridDetection.RectGrid.DetectStep | pystormtracker/detector.py:275-289 | One iteration takes frame `it` from the buffered chunk and yields its centers, as if it had been read alone. |
| RectGridDetection.RectGrid.Detect | pystormtracker/detector.py:262-291 | One center list per covered frame (a range past the file's end is clipped to its last frame), equal to reading each frame alone. It fails iff the window is even or a one-cell thresholded minimum. |
| LatLonDetection.MinWithMarginSpec | pytrack/detector.py:62-71 | A NaN-free window qualifies iff its center is its minimum and, for a non-zero threshold, at most `size // 2` values lie within `threshold` of it. |
| LatLonDetection.Padded | pytrack/detector.py:73-80 | The padded frame has `2 * (size // 2)` extra rows. |
| LatLonDetection.FillRows | pytrack/detector.py:78-80 | Row-slice assignment sets exactly the rows of the slice. |
| LatLonDetection.PadInput | pytrack/detector.py:76-80 | The padded array is `h` NaN rows, then the frame, then `h` NaN rows. |
| LatLonDetection.PaddedFilter | pytrack/detector.py:82-83 | The padded filter output has the padded shape. |
| LatLonDetection.LatLonMinima | pytrack/detector.py:56-85 | The filter output has the frame's shape. |
| LatLonDetection.StrippedFilter | pytrack/detector.py:85 | Stripping the padding rows of the padded output gives `LatLonMinima`. |
| LatLonDetection.NanWindow | pytrack/detector.py:65-67 | A window over a padding cell contains a NaN. |
| LatLonDetection.PolarWindow | pytrack/detector.py:78-83 | The window of a polar row reaches a padding row. |
| LatLonDetection.LatLonPolarRows | pytrack/detector.py:73-85 | The top `size // 2` rows never qualify. Neither do the bottom rows whose window reaches the padding, one fewer for even sizes. |
| LatLonDetection.PaddedRows | pytrack/detector.py:79 | The middle rows of the padded frame are the frame's rows. |
| LatLonDetection.InteriorWindow | pytrack/detector.py:79-83 | Away from the padding, a window holds no NaN and is the frame's own window. |
| LatLonDetection.LatLonInteriorRows | pytrack/detector.py:62-83 | Away from the padding, a cell qualifies iff it is its window's minimum with the required margin. |
| LatLonDetection.LocalMinimaFilterLatLon | pytrack/detector.py:56-85 | For `size >= 2` the result is `LatLonMinima`. For `size == 1` the slice `[0:-0]` is empty: several rows raise ValueError and one row gives an empty result. |
| LatLonDetection.DetectCenterLatLon | pytrack/detector.py:97-102 | The minima, de-duplicated with a 5 x 5 Laplacian filter. |
| LatLonDetection.LatLonDetectedCells | pytrack/detector.py:87-102 | A cell is reported iff it is a padded-filter minimum and its Laplacian is non-zero. No cell of its wrapped 5 x 5 window of the Laplacian times the minimum flags may exceed it; non-minima count as 0. |
| GreedyTracking.AppendKeepsChronology | pystormtracker/tracker.py:18-24 | A track stays in strictly increasing time order. A center is added iff the track is empty or the center is later; otherwise it is silently dropped. |
| GreedyTracking.Nearest | pystormtracker/tracker.py:32-40 | `match_center` returns a `tail` track or None. |
| GreedyTracking.NearestSpec | pystormtracker/tracker.py:32-40 | The result is None iff no tail track ends strictly within the threshold. Otherwise it is the first such track in `(dist, t)` priority-queue order. |
| GreedyTracking.InsertOne | pystormtracker/tracker.py:51-60 | One center adds one tail entry and never removes a track. |
| GreedyTracking.InsertOneStep | pystormtracker/tracker.py:52-60 | The new tail entry is the joined track or a new one-center track. A previous-tail track gains the center or is unchanged, and every other track is unchanged. |
| GreedyTracking.InsertOneWellFormed | pystormtracker/tracker.py:51-60 | A step keeps every track chronological and non-empty. |
| GreedyTracking.FoldInsert | pystormtracker/tracker.py:50-61 | A later frame adds one tail entry per center and never removes a track. |
| GreedyTracking.Opened | pystormtracker/tracker.py:43-48 | The first frame opens one track per center. |
| GreedyTracking.FoldWellFormed | pystormtracker/tracker.py:49-61 | After a later frame, all tracks are chronological and non-empty, and the new tail names tracks. |
| GreedyTracking.InsertOneTail | pystormtracker/tracker.py:52-60 | A step adds one valid entry to the new tail. |
| GreedyTracking.FoldTailOrigin | pystormtracker/tracker.py:50-61 | Each new tail entry is a previous-tail track or a track opened in this frame. |
| GreedyTracking.FoldOpenedSingle | pystormtracker/tracker.py:50-61 | A track opened in a later frame holds exactly one center. |
| GreedyTracking.FoldExtends | pystormtracker/tracker.py:50-61 | Tracks that existed before a later frame only grow. |
| GreedyTracking.InsertCentersWellFormed | pystormtracker/tracker.py:42-61 | `insert_centers` keeps every track chronological and non-empty, and gives one tail entry per center. |
| GreedyTracking.SharedMatchDropsCenter | pystormtracker/tracker.py:51-55 | Matching is not one-to-one. Two centers can pick the same track, and the second is dropped while the tail lists that track twice. |
| GreedyTracking.AsWrittenSkipsTrackZero | pystormtracker/tracker.py:53 | As written, track 0 never receives a center after the first frame. |
| GreedyTracking.TrackZeroCounterexample | pystormtracker/tracker.py:53 | A center whose nearest track is track 0 opens a second track as written, and joins track 0 once corrected. |
| GreedyTracking.FixedJoinsNearest | pystormtracker/tracker.py:53-60 | With `is not None`, a center joins its nearest previous-tail track, track 0 included, or else opens a track. |
| GreedyTracking.Track.constructor | pystormtracker/tracker.py:14-16 | A new track has no end time and no centers. |
| GreedyTracking.Track.Append | pystormtracker/tracker.py:18-24 | `append` is `AppendVal`: add and move `endtime` if later, else no change. |
| GreedyTracking.Tracks.constructor | pystormtracker/tracker.py:28-30 | There are no tracks and the tail is empty. |
| GreedyTracking.Tracks.MatchCenter | pystormtracker/tracker.py:32-40 | `match_center` computes `Nearest`. |
| GreedyTracking.Tracks.InsertCenters | pystormtracker/tracker.py:42-61 | The tracks and tail become the specified result of the as-written `if track_id:` test. |
| GreedyTracking.Tracks.InsertCentersFixed | pystormtracker/tracker.py:42-61 | The tracks and tail become the specified result with `is not None`. |
| GreedyTracking.Tracks.InsertWith | pystormtracker/tracker.py:42-61 | The first frame opens a track per center. A later frame is `FoldInsert` against the previous tail. |
| GreedyTracking.Tracks.LaterFrame | pystormtracker/tracker.py:49-61 | Every center is matched against the previous tail, which stays in place until the frame is done. |
| GreedyTracking.Tracks.FrameStep | pystormtracker/tracker.py:51-60 | Placing center k extends the fold by one center. |
| GreedyTracking.Tracks.SetTail | pystormtracker/tracker.py:61 | `self.tail = new_tail` changes only the tail. |
| GreedyTracking.Tracks.OpenAll | pystormtracker/tracker.py:43-48 | The first frame opens one track per center, and the tail is `0 .. n-1`. |
| GreedyTracking.Tracks.InsertOneCenter | pystormtracker/tracker.py:51-60 | One center is matched and appended to its match or to a new track. Earlier `Track` objects stay in place. |
| GreedyTracking.Tracks.PlaceCenter | pystormtracker/tracker.py:53-60 | With the match known, the center goes where the test says. |
| GreedyTracking.Tracks.AppendTo | pystormtracker/tracker.py:54 | `self.tracks[t].append(center)` changes only track t's value. |
| GreedyTracking.Tracks.OpenTrack | pystormtracker/tracker.py:57-59 | A fresh `Track` holding the center is appended, and the other tracks are unchanged. |

## Left out

- Distances: `Center.abs_dist`, `lat_dist` and `lon_dist` (haversine in floating point) are an abstract integer-valued distance, and thresholds are integers. Rounding is not modelled.
- Field values: integers stand for the floating-point fields, and NaN is `None`. `np.inf` in `np.ma.filled` is an integer parameter `inf`. `SimpleDetector`'s methods require `InfFills`, under which it compares like infinity. The Laplacian stage uses the float values `Ext`. Rounding and other floating-point corner cases are not modelled.
- SimpleDetection.SimpleDetector.ProcessFrame: in maximum mode, this method and `DetectStep`, `Detect` and `FrameCenters` use the corrected, negated Laplacian. As written, the program reports no center in maximum mode (`WrittenSurvivors`; see "## Findings"). Minimum mode is as written.
- RectGridDetection.RectGrid.ProcessFrame: as for `SimpleDetector`, maximum mode uses the negated Laplacian; see "## Findings".
- The Laplacian: `scipy.ndimage.laplace` is an input grid. Its computation is not modelled.
- File I/O: netCDF and Nio, `_init`, `get_time`, `get_lat` and `get_lon` are modelled only through an `NcFile` value read by index and slice. A missing `lat`/`latitude` variable (KeyError) is not modelled.
- MPI and Dask: `_detect_mpi`, `_detect_dask`, `comm.send` and `comm.recv` are not modelled. The stripe schedule is a list of actions per rank; delivery and deadlock are not modelled.
- The command line: `run_tracker`, `parse_args`, `main` and `export_to_csv` do I/O and argument parsing, and are not modelled.
- Progress output: the progress `print` in `detect` is not modelled.
- Pickling is not modelled.
- GreedyTracking.Accepts: `center.time > self.endtime` with `endtime` None is modelled with Python 2 ordering, where every number is above None. The trackers import Nio and are written for Python 2. Under Python 3 that comparison raises TypeError on a fresh track; this is not modelled.
- `min(d, key=d.get)` is modelled on integer costs. In the `src/` linkers ties go to the lowest key, which is the first inserted key, as in Python 3's insertion-ordered dicts. In `pystormtracker/linker.py` (Python 2) the model lets `min` return any key of minimal cost.
- Matching.TryMatchStale: equals the specification step only when no two under-threshold distances tie in a row or column; which tied key Python 2's hash order picks is not modelled.
- Matching.MatchPassStale: equals the specification pass only without ties, for the same reason.
- Matching.MutualMatchRebinding: equals `MatchSpec` only without ties; with ties it is only proved sound (one-to-one, within the threshold).
- Linking.MatchCenterRebinding: equals `MatchedTracks` only without ties; with ties it is only proved sound.
- Py2Linker.Tracks.MatchCenter: equals the specified matching only without ties; with ties it is only proved sound.
- Py2Linker.Tracks.MatchTrack: equals the specified matching only without ties; with ties it is only proved sound.
- Py2Linker.Tracks.AppendCenter: equals `AppendSpec` of the specified matching only without ties; with ties it is `AppendSpec` of some sound matching.
- Py2Linker.Tracks.ExtendTrack: equals `ExtendSpec` of the specified matching only without ties; with ties it is `ExtendSpec` of some sound matching.
- SimpleDetection.SimpleDetector.Detect: a time range starting before frame 0 is not modelled (`RangeInFile` requires `trange[0] >= 0` for a non-empty range); the command line builds `(0, num)` and `split` keeps the start, so no caller builds one. A range reaching past the last frame is modelled and clipped.
- RectGridDetection.RectGrid.Detect: a time range starting before frame 0 is not modelled, as for `SimpleDetector.Detect`.
- Py2Linker.Tracks.ExtendTrack: Python appends the second set's own list objects, so afterwards both sets share them; the model works on track values and does not capture this aliasing. It requires `other != this`, so `tracks.extend_track(tracks)` is not modelled.
- LegacyLinker.Tracks.ExtendTrack: the same sharing of the other set's lists is not captured, and it requires `other != this`.
- SimpleLinking.SimpleLinker.ExtendTrack: the same sharing of `tracks2`'s lists is not captured, and it requires `tracks1 != tracks2`.

## Findings

| source | as written | input that shows it | evidently intended | confidence | as-written member | corrected member |
|---|---|---|---|---|---|---|
| src/pystormtracker/stormtracker.py:112 | `while nstripe <= size:` stops before the last merge when `size` is not a power of two | `size = 3`: only stripe 2 runs, rank 2 never sends, and rank 0 ends without partition 2 | loop while `nstripe // 2 < size`, so every partition reaches rank 0 | not executed | StormTracker.ThreeRanksLoseOne | StormTracker.RootGathersAllFixed |
| src/pystormtracker/simple/detector.py:247 | `laplace(data)` ranks candidates by the Laplacian in both modes, but a maximum's Laplacian is at most 0 | `-m max`, default size 5, a 9 x 9 unmasked frame of zeros with a 1 at the centre. The peak's Laplacian is -4, and its four neighbours are not candidates and hold 0. `buffer.max()` is 0, so the peak is dropped; by the lemma, no center is ever reported in maximum mode | negate the Laplacian in maximum mode, so the sharpest peak ranks highest as the deepest trough does | not executed | SimpleDetection.MaxModeReportsNothing | SimpleDetection.MaxModeKeepsPeak |
| pystormtracker/detector.py:257 | the same Laplacian ranking in `RectGrid` | the same frame with `minmaxmode='max'` | negate the Laplacian in maximum mode | not executed | RectGridDetection.RectMaxModeReportsNothing | RectGridDetection.RectMaxModeKeepsPeak |
| pystormtracker/tracker.py:53 | `if track_id:` treats track 0 like "no match" | one track 0 whose last center is at distance 0 from the next frame's only center: the center opens track 1 | `if track_id is not None:`, so a center can join track 0 | not executed | GreedyTracking.AsWrittenSkipsTrackZero | GreedyTracking.FixedJoinsNearest |
