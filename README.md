# Simple object tracking: the tracking engine in Dafny

This project models the tracking engine of `simple_object_tracking`. The
engine takes one list of detections per video frame. It decides which
detection continues which tracked object, and it keeps a registry of every
object with its history. The model covers five parts:

- **`Common`** (`common.dfy`) holds the shared pieces:
  - detections, as an opaque value with an integer centre;
  - squared integer distance;
  - the error values;
  - the Python list primitives the engine relies on: negative indexing, `list.index`, `min` and `np.argmin`.
- **`Datastructures`** (`datastructures.dfy`) is the newer registry.
  - `TrackedObject` is one object's history: an id, a status and two parallel lists.
  - `TrackedObjects` is the collection: register, update, evict, query, purge, and removal of objects with too few detections.
  - Both are classes updated in place. `TrackState` is the value of one object. Functions over `seq<TrackState>` specify each operation.
- **`Tracker`** (`tracker.dfy`) is the abstract engine:
  - the constructor's two checks;
  - `objects_in_frame`, with its fixed filter order;
  - the older registry, `ObjectsRegistered`. Its five parallel lists and its unregistered-uid list are fields of a class; its value is `Registry`.
- **`CentroidLinear`** (`centroid_linear.dfy`) is `CentroidLinearTracker`:
  - it builds a distance matrix (an `array2`);
  - it takes the first argmin of each column, under a strict tolerance;
  - it resolves conflicts by keeping the first pair of each previous object (an `array<bool>` of flags);
  - it updates, registers and evicts over the older registry.
- **`Centroid`** (`centroid.dfy`) is `CentroidTracker`:
  - the greedy single pass of `_matching_step`, with a non-strict range test and no fallback;
  - its frame loop, run against `TrackedObjects`.

Each imperative operation is a method. Its postcondition ties the new state or
result to a specification function of the old state. Lemmas prove what the
source promises about those functions.

Distances are squared integer distances between centres:

- `CentroidTracker` compares `d <= max_distance_allowed`. The model compares
  `d2 <= max * max` with `max >= 0`. `Centroid.WithinExact` proves, for every
  real `d >= 0` with `d * d == d2`, that this test accepts `d2` exactly when
  `d <= max`.
- `CentroidLinearTracker` compares `d < t` against a tolerance `t`. The model
  keeps `ToleranceSquared(t)`: the square of `t` rounded up when `t > 0`, and
  0 otherwise. `CentroidLinear.BelowToleranceExact` proves, for every real
  `d >= 0` with `d * d == d2` and every real `t`, that `d < t` holds exactly
  when `d2 < ToleranceSquared(t)`.

## Model

| member | source | states |
|---|---|---|
| Common.Dist2 | simple_object_tracking/trackers/centroid_linear_tracker.py:51 | the distance between two centroids is zero exactly when they coincide |
| Common.PyIndex | simple_object_tracking/datastructures.py:152 | a Python index is valid exactly in [-n, n), and a negative one counts from the end |
| Common.PySliceStart | simple_object_tracking/datastructures.py:216 | where `s[i:]` starts: at i inside the list, clamped at both ends, counted from the end when negative |
| Common.IndexOf | simple_object_tracking/datastructures.py:69 | `list.index`: the first position holding x, with no earlier occurrence, and the length exactly when x is absent |
| Common.MinOf | simple_object_tracking/trackers/centroid_tracker.py:65 | `min` is an element of the list and at most every element |
| Common.ArgMin | simple_object_tracking/trackers/centroid_linear_tracker.py:58 | `np.argmin` is a position whose value is at most every value and strictly below every earlier one |
| Common.IndexOfMinIsArgMin | simple_object_tracking/trackers/centroid_tracker.py:65-66 | `index(min(ds))` is `np.argmin(ds)`, so the two trackers pick their nearest candidate the same way |
| Common.CountNotInDistinct | simple_object_tracking/trackers/centroid_linear_tracker.py:115-118 | with k distinct matched indices below n, exactly n - k indices are left unmatched |
| Common.Unmatched | simple_object_tracking/trackers/centroid_linear_tracker.py:115-118 | the detections left to register number the indices missing from the matched list |
| Common.UnmatchedNone | simple_object_tracking/trackers/centroid_tracker.py:100-102 | with nothing matched, every detection is registered, in order |
| Datastructures.TrackState.Length | simple_object_tracking/datastructures.py:42-47 | `__len__` is the number of frames, and at least 1 |
| Datastructures.TrackState.Get | simple_object_tracking/datastructures.py:32-40 | `__getitem__` succeeds exactly for indices in [-len, len) and returns that entry, with negative indices counted from the end |
| Datastructures.TrackState.Last | simple_object_tracking/datastructures.py:166 | `obj[-1]` is the most recent entry |
| Datastructures.TrackState.FindInFrame | simple_object_tracking/datastructures.py:62-72 | `None` exactly when the frame is absent; otherwise the entry at the first position with that frame |
| Datastructures.TrackedObject.constructor | simple_object_tracking/datastructures.py:19-30 | a new object has the given id and status and exactly one entry |
| Datastructures.TrackedObject.Append | simple_object_tracking/datastructures.py:52-60 | both lists grow by one entry together, and every earlier entry is unchanged |
| Datastructures.Fresh | simple_object_tracking/datastructures.py:131-136 | a registered object is well formed, has status True and has one entry |
| Datastructures.UpdateTracks | simple_object_tracking/datastructures.py:140-154 | raises the registry's exception exactly when obj_id > len; fails as an IndexError for obj_id == len and for obj_id < -len; succeeds exactly for a valid Python index, and then appends to that one object, whatever its status, leaving all others unchanged |
| Datastructures.UnregisteredSpec | simple_object_tracking/datastructures.py:156-170 | after the sweep, an object keeps status True exactly when it had it and frame - last frame <= max (the strict > evicts); ids and histories are untouched, and no status is set to True |
| Datastructures.UnregisteredIdempotent | simple_object_tracking/datastructures.py:156-170 | a second sweep with the same arguments changes nothing |
| Datastructures.EvictionBoundary | simple_object_tracking/datastructures.py:166-170 | an object last seen at k survives the sweep at k + T and is evicted by the sweep at k + T + 1 |
| Datastructures.FrameObjectsOfSpec | simple_object_tracking/datastructures.py:172-183 | `frame_objects` reports exactly the objects seen at the frame, whatever their status, each with its `find_in_frame` entry, in increasing id order |
| Datastructures.RegisteredOfSpec | simple_object_tracking/datastructures.py:192-203 | `registered_objects` reports exactly the status-True objects, each with its last entry, in storage order |
| Datastructures.Removed | simple_object_tracking/datastructures.py:214 | `pop(k)` shortens the list by one and shifts every later element down by one |
| Datastructures.PurgeSingle | simple_object_tracking/datastructures.py:212-217 | purging [k] removes position k, keeps earlier objects, and decrements the id of every later one |
| Datastructures.PurgeKeepsDenseIds | simple_object_tracking/datastructures.py:205-217 | with non-negative ids, purging keeps ids equal to positions, even as each pop applies to the shortened list |
| Datastructures.LessIdsSpec | simple_object_tracking/datastructures.py:225-226 | the ids to remove are exactly those of objects with fewer entries than the minimum, in increasing order |
| Datastructures.SurvivorsCount | simple_object_tracking/datastructures.py:225-228 | every object is either kept or listed for removal, never both |
| Datastructures.PurgeAscendingRemovesWrongObject | simple_object_tracking/datastructures.py:212-228 | as written, with detections [1, 5, 2, 4] and minimum 3, the object with 4 entries is removed and the one with 2 is kept |
| Datastructures.PurgeAscendingRaises | simple_object_tracking/datastructures.py:212-228 | as written, with detections [5, 5, 1, 1] and minimum 3, the second pop is out of range and the method raises |
| Datastructures.PurgeDescendingRemovesExactly | simple_object_tracking/datastructures.py:219-228 | purging the same ids in descending order removes exactly the objects with too few entries, keeping the rest in order, renumbered from 0 |
| Datastructures.TrackedObjects.constructor | simple_object_tracking/datastructures.py:85-88 | a new registry is empty and its next uid is 0 |
| Datastructures.TrackedObjects.NextUidAndIncrement | simple_object_tracking/datastructures.py:237-244 | returns the current next uid and advances it by 1 |
| Datastructures.TrackedObjects.RegisterObject | simple_object_tracking/datastructures.py:124-138 | appends one new object whose id is the old next uid, with status True; increments the next uid and returns True; keeps ids equal to positions |
| Datastructures.TrackedObjects.UpdateObject | simple_object_tracking/datastructures.py:140-154 | the registry afterwards is `UpdateTracks` of the registry before, or is unchanged with the error it raised |
| Datastructures.TrackedObjects.UnregisterMissingObjects | simple_object_tracking/datastructures.py:156-170 | the registry afterwards is the sweep `Unregistered` of the registry before |
| Datastructures.TrackedObjects.EvictAt | simple_object_tracking/datastructures.py:165-170 | one iteration of the sweep: the object at i gets its swept value, and the others stay as they were |
| Datastructures.TrackedObjects.FrameObjects | simple_object_tracking/datastructures.py:172-183 | returns `FrameObjectsOf` of the current state |
| Datastructures.TrackedObjects.RegisteredObjects | simple_object_tracking/datastructures.py:192-203 | returns `RegisteredOf` of the current state |
| Datastructures.TrackedObjects.PurgeObjects | simple_object_tracking/datastructures.py:205-217 | the registry afterwards is `PurgeOf` of the registry before, and the call fails exactly when a pop is out of range |
| Datastructures.TrackedObjects.Pop | simple_object_tracking/datastructures.py:214 | removes the object at position k and keeps the rest in order |
| Datastructures.TrackedObjects.DecrementIdsFrom | simple_object_tracking/datastructures.py:216-217 | decrements the id of every object from position start onwards and changes nothing else |
| Datastructures.TrackedObjects.DecrementAt | simple_object_tracking/datastructures.py:217 | one iteration of the decrement loop |
| Datastructures.TrackedObjects.CollectLessIds | simple_object_tracking/datastructures.py:225-226 | the comprehension collects `LessIds` of the current state |
| Datastructures.TrackedObjects.RemoveObjectsWithLessDetectionsThan | simple_object_tracking/datastructures.py:219-228 | as written: returns the ascending ids of objects with too few entries and purges them in that order |
| Datastructures.TrackedObjects.RemoveObjectsWithLessDetectionsThanFixed | simple_object_tracking/datastructures.py:219-228 | corrected: returns the same ids; afterwards the registry holds exactly the other objects, in order, renumbered from 0 |
| Tracker.CheckConfigSpec | simple_object_tracking/tracker.py:37-46 | as written, construction passes exactly when a non-empty detection list of the sequence's length is given; with no source at all, the first assertion fails |
| Tracker.DetectorAloneRejected | simple_object_tracking/tracker.py:46 | as written, a tracker given only a detector always fails the second assertion |
| Tracker.CheckConfigFixedSpec | simple_object_tracking/tracker.py:37-46 | corrected: a source is required, and the length check applies only to a given list; this accepts a detector alone and everything the written checks accept |
| Tracker.ActiveFilters | simple_object_tracking/tracker.py:71-77 | each filter is on exactly when its option is set, and the active filters run in the fixed order min score, classes, duplicates |
| Tracker.ObjectsInFrame | simple_object_tracking/tracker.py:54-78 | with no filter option set, a frame's objects are its precomputed detections, or the detector's when no list was given |
| Tracker.ObjectsInFrameIsFilterChain | simple_object_tracking/tracker.py:64-78 | `objects_in_frame` is the source list passed through exactly the active filters, in their fixed order |
| Tracker.FrameOf | simple_object_tracking/trackers/centroid_linear_tracker.py:124-125 | the k-th frame the loops see is `objects_in_frame(k)` |
| Tracker.DetectionsUpToStep | simple_object_tracking/trackers/centroid_linear_tracker.py:124-125 | the detections over the first n frames are those over n - 1 frames plus frame n - 1's |
| Tracker.EmptyRegistry | simple_object_tracking/tracker.py:94-108 | an empty `ObjectsRegistered` satisfies the registry invariant |
| Tracker.Registry.Updated | simple_object_tracking/tracker.py:153-155 | overwriting the object and last frame and appending to one history keeps the invariant and the object count |
| Tracker.Registry.Update | simple_object_tracking/tracker.py:142-155 | fails the assertion exactly when the uid is unregistered; otherwise fails as an IndexError for a uid outside [-len, len) and succeeds for a valid Python index, overwriting that object and its last frame, appending (frame, object) to its history and changing nothing else |
| Tracker.RegisteredInv | simple_object_tracking/tracker.py:128-140 | registering keeps the four lists in lockstep, uid i at position i, and each history ending with the object's current entry |
| Tracker.UnregisterDisappearedSpec | simple_object_tracking/tracker.py:157-170 | afterwards uid i is unregistered exactly when it already was or frame - last_frame[i] >= threshold (non-strict); earlier entries stay in place, no uid appears twice, and nothing else changes |
| Tracker.UnregisterDisappearedInv | simple_object_tracking/tracker.py:157-170 | the sweep keeps the registry invariant |
| Tracker.SweptExtends | simple_object_tracking/tracker.py:164-170 | unregistration is permanent: the sweep only appends to the unregistered list, which stays duplicate-free |
| Tracker.SweptMembers | simple_object_tracking/tracker.py:164-170 | the sweep adds exactly the registered uids past the threshold and nothing else |
| Tracker.ZipFilteredSpec | simple_object_tracking/tracker.py:110-126 | `objects_with_uid` returns, in registration order, exactly the (uid, object) pairs whose uid is not excluded |
| Tracker.HistoryEntriesSnoc | simple_object_tracking/tracker.py:138 | a new history adds its entries to the total |
| Tracker.HistoryEntriesAppendAt | simple_object_tracking/tracker.py:155 | appending to one history adds exactly one entry to the total |
| Tracker.ObjectsRegistered.constructor | simple_object_tracking/tracker.py:94-108 | a new registry is empty and keeps the given threshold |
| Tracker.ObjectsRegistered.RegisterObject | simple_object_tracking/tracker.py:128-140 | the lists afterwards are those of `Registered`, and the invariant holds |
| Tracker.ObjectsRegistered.UpdateObject | simple_object_tracking/tracker.py:142-155 | the lists afterwards are those of `Update`, or are unchanged with its error |
| Tracker.ObjectsRegistered.UnregisterDisappearedObjects | simple_object_tracking/tracker.py:157-170 | the lists afterwards are those of `UnregisterDisappeared` |
| CentroidLinear.DistanceTolerance | simple_object_tracking/trackers/centroid_linear_tracker.py:36-38 | `_distance_tolerance` is the width or the height times the factor, and with a non-negative factor at least both |
| CentroidLinear.ToleranceSquared | simple_object_tracking/trackers/centroid_linear_tracker.py:60 | the squared tolerance is 0 for a tolerance that is not positive, and otherwise the least integer at or above its square |
| CentroidLinear.BelowToleranceExact | simple_object_tracking/trackers/centroid_linear_tracker.py:60 | for a real distance d with square d2 and any real tolerance t, `d < t` holds exactly when d2 is below the squared tolerance |
| CentroidLinear.NearestIsArgMin | simple_object_tracking/trackers/centroid_linear_tracker.py:56-58 | the chosen previous index is the first position of the column minimum |
| CentroidLinear.Columns | simple_object_tracking/trackers/centroid_linear_tracker.py:45-51 | column j of the matrix holds the distances from every previous object to current object j |
| CentroidLinear.MatchesUpToSound | simple_object_tracking/trackers/centroid_linear_tracker.py:54-62 | every pair emitted over the first n columns is that column's first argmin, strictly below the tolerance, with j ascending |
| CentroidLinear.MatchesUpToComplete | simple_object_tracking/trackers/centroid_linear_tracker.py:54-62 | every column whose first argmin is strictly below the tolerance emits its pair |
| CentroidLinear.ColumnMatchesSpec | simple_object_tracking/trackers/centroid_linear_tracker.py:40-63 | `_calculate_matches` returns no pairs when either list is empty; otherwise exactly one pair per column whose nearest previous object is strictly within tolerance, in ascending j |
| CentroidLinear.ArgMinColumn | simple_object_tracking/trackers/centroid_linear_tracker.py:56-58 | the loop over one matrix column returns `np.argmin` of that column |
| CentroidLinear.CalculateMatches | simple_object_tracking/trackers/centroid_linear_tracker.py:40-63 | the matrix-and-loops method returns `ColumnMatches` |
| CentroidLinear.DistanceMatrix | simple_object_tracking/trackers/centroid_linear_tracker.py:45-51 | the fresh matrix holds every distance |
| CentroidLinear.FillRow | simple_object_tracking/trackers/centroid_linear_tracker.py:48-51 | one pass of the outer loop fills row i and keeps the earlier rows |
| CentroidLinear.MatchColumn | simple_object_tracking/trackers/centroid_linear_tracker.py:54-62 | one pass of the column loop extends the matches by that column's pair, if any |
| CentroidLinear.ResolveMatches | simple_object_tracking/trackers/centroid_linear_tracker.py:65-86 | the flag-array loop returns `Resolved` of its input |
| CentroidLinear.ResolvedSpec | simple_object_tracking/trackers/centroid_linear_tracker.py:78-86 | `_resolve_matches` keeps exactly the first pair for each previous index, in input order, so the previous indices it returns are distinct and cover every one matched |
| CentroidLinear.ResolvedSecondsAscending | simple_object_tracking/trackers/centroid_linear_tracker.py:82-86 | as a subsequence, the resolved pairs keep ascending current indices |
| CentroidLinear.ActiveUids | simple_object_tracking/trackers/centroid_linear_tracker.py:98-101 | the registered uids `_do_matches` sees are registered, not unregistered, and ascending |
| CentroidLinear.ResolvedTargets | simple_object_tracking/trackers/centroid_linear_tracker.py:98-109 | the resolved pairs name distinct active uids and valid current indices |
| CentroidLinear.UpdateActive | simple_object_tracking/tracker.py:149-155 | updating a registered, active uid always succeeds |
| CentroidLinear.ApplyMatches | simple_object_tracking/trackers/centroid_linear_tracker.py:107-110 | the updates of the loop keep the invariant, the object count, the uids and the unregistered list |
| CentroidLinear.ApplyMatchesEffect | simple_object_tracking/trackers/centroid_linear_tracker.py:107-110 | with distinct targets, each targeted uid gets its detection and frame, its history becomes the old one plus (frame, detection), and every other object is unchanged |
| CentroidLinear.ApplyMatchesEntries | simple_object_tracking/trackers/centroid_linear_tracker.py:107-110 | the updates add one history entry per resolved pair |
| CentroidLinear.ApplyMatchesStep | simple_object_tracking/trackers/centroid_linear_tracker.py:107-110 | one iteration of the update loop is one `Updated`, and records that pair's current index |
| CentroidLinear.UpdatedEffect | simple_object_tracking/tracker.py:153-155 | one update touches exactly that uid's object, last frame and history |
| CentroidLinear.DoMatchesOf | simple_object_tracking/trackers/centroid_linear_tracker.py:88-111 | the matching keeps the invariant, the object count and the unregistered list |
| CentroidLinear.DoMatchesSpec | simple_object_tracking/trackers/centroid_linear_tracker.py:88-111 | `_do_matches` does nothing when no registered object is active; otherwise it updates each resolved uid exactly once, and only active uids, appending exactly (frame, matched detection) to its history, and returns the matched current indices ascending, one per update |
| CentroidLinear.RegisterUnmatchedAll | simple_object_tracking/trackers/centroid_linear_tracker.py:113-118 | `_register_not_matched_objects` registers, in order, exactly the current objects whose index is not matched |
| CentroidLinear.RegisteredAllSpec | simple_object_tracking/trackers/centroid_linear_tracker.py:113-118 | registering the leftovers keeps the invariant and adds one entry each |
| CentroidLinear.LinearFrame | simple_object_tracking/trackers/centroid_linear_tracker.py:125-131 | one frame of match, register and unregister keeps the invariant |
| CentroidLinear.LinearFrameEntries | simple_object_tracking/trackers/centroid_linear_tracker.py:125-131 | each detection of the frame becomes exactly one history entry; the object count grows by the detections minus the matches |
| CentroidLinear.LinearRun | simple_object_tracking/trackers/centroid_linear_tracker.py:120-131 | the run over the first n frames keeps the invariant |
| CentroidLinear.LinearRunSpec | simple_object_tracking/trackers/centroid_linear_tracker.py:120-131 | frame 0's objects are all registered without matching; over n frames, the histories gain exactly the detections of those frames |
| CentroidLinear.CentroidLinearTracker.constructor | simple_object_tracking/trackers/centroid_linear_tracker.py:19-28 | the tracker starts with an empty registry and the squared tolerance of `_distance_tolerance` |
| CentroidLinear.CentroidLinearTracker.RegisterInitialObjects | simple_object_tracking/trackers/centroid_linear_tracker.py:30-34 | the registry afterwards is the one-frame run |
| CentroidLinear.CentroidLinearTracker.DoMatches | simple_object_tracking/trackers/centroid_linear_tracker.py:88-111 | the registry and the result afterwards are those of `DoMatchesOf` |
| CentroidLinear.CentroidLinearTracker.RegisterNotMatchedObjects | simple_object_tracking/trackers/centroid_linear_tracker.py:113-118 | the registry afterwards is `RegisterUnmatched` of the registry before |
| CentroidLinear.CentroidLinearTracker.Algorithm | simple_object_tracking/trackers/centroid_linear_tracker.py:120-131 | fails exactly when there is no frame 0; otherwise the registry afterwards is `LinearRun` over all frames |
| Centroid.Distances | simple_object_tracking/trackers/centroid_tracker.py:56-63 | one distance per registered tuple |
| Centroid.NearestUpToIsArgMin | simple_object_tracking/trackers/centroid_tracker.py:64-66 | the nearest position over a prefix is that prefix's first argmin |
| Centroid.NearestIsFirstMinimum | simple_object_tracking/trackers/centroid_tracker.py:64-66 | the nearest registered index is `index(min(ds))`: the first position of the minimum, over all registered objects, matched or not |
| Centroid.CloseIsMinimumWithin | simple_object_tracking/trackers/centroid_tracker.py:72 | the range test reads the minimum distance |
| Centroid.WithinExact | simple_object_tracking/trackers/centroid_tracker.py:72 | for a real distance d with square d2, comparing d2 with the squared bound accepts exactly when d <= max_distance_allowed (non-strict); a negative bound accepts none |
| Centroid.CandidatesSpec | simple_object_tracking/trackers/centroid_tracker.py:55-66 | one candidate per current object, naming a registered position and the id stored there |
| Centroid.GreedyUpToSpec | simple_object_tracking/trackers/centroid_tracker.py:55-80 | after each prefix: every match pairs an index with its candidate, which was not yet taken and was in range; current indices ascend, no registered position is taken twice, and an unmatched object's candidate was taken or out of range |
| Centroid.MatchingOfSpec | simple_object_tracking/trackers/centroid_tracker.py:40-80 | `_matching_step` makes no updates when either list is empty; otherwise the facts above hold over all current objects; each update targets the registered tuple's id, the lists stay one-to-one, and the registered list stays duplicate-free when it was |
| Centroid.NoFallback | simple_object_tracking/trackers/centroid_tracker.py:69-72 | a current object whose nearest registered object is taken stays unmatched, even with another one in range |
| Centroid.MatchedIndices | simple_object_tracking/trackers/centroid_tracker.py:79-80 | the matched current indices are distinct and valid, one per update |
| Centroid.StepExtends | simple_object_tracking/trackers/centroid_tracker.py:72-80 | an iteration makes at most one update and keeps the earlier ones |
| Centroid.GreedySkip | simple_object_tracking/trackers/centroid_tracker.py:69-72 | an iteration whose candidate is taken or out of range changes nothing |
| Centroid.GreedyMatch | simple_object_tracking/trackers/centroid_tracker.py:72-80 | an iteration that matches appends to both lists and makes one `update_object` on the candidate's id |
| Centroid.GreedyPrefix | simple_object_tracking/trackers/centroid_tracker.py:55-80 | the updates of a shorter pass are a prefix of those of a longer one |
| Centroid.ApplyUpdatesStops | simple_object_tracking/trackers/centroid_tracker.py:74-78 | once an `update_object` call raises, the step ends with that error |
| Centroid.ApplyUpdatesSpec | simple_object_tracking/trackers/centroid_tracker.py:74-78 | updates with distinct, valid targets all succeed; each appends once to its target, and they add one entry each |
| Centroid.MatchTargetsDistinct | simple_object_tracking/trackers/centroid_tracker.py:69-80 | against `registered_objects`, the step's updates target distinct, valid ids |
| Centroid.MatchUpdatesLand | simple_object_tracking/trackers/centroid_tracker.py:74-80 | in the frame loop every update of the step succeeds, adds one entry, and keeps ids equal to positions |
| Centroid.FreshRun | simple_object_tracking/trackers/centroid_tracker.py:100-102 | registering the leftovers adds one object per leftover |
| Centroid.FreshRunKeeps | simple_object_tracking/trackers/centroid_tracker.py:100-102 | registration keeps the earlier objects and makes the k-th new object the fresh one with id len + k, the current frame and its detection |
| Centroid.FreshRunWellFormed | simple_object_tracking/trackers/centroid_tracker.py:100-102 | registration keeps every history well formed and ids equal to positions |
| Centroid.FreshRunEntries | simple_object_tracking/trackers/centroid_tracker.py:100-102 | each registered leftover adds one entry |
| Centroid.EntriesUnregistered | simple_object_tracking/trackers/centroid_tracker.py:104-107 | eviction changes no history |
| Centroid.FrameLands | simple_object_tracking/trackers/centroid_tracker.py:88-102 | a frame's updates succeed and the registration that follows leaves a well-formed registry |
| Centroid.CentroidFrameKeeps | simple_object_tracking/trackers/centroid_tracker.py:88-107 | one frame of match, register and evict keeps histories well formed and ids equal to positions |
| Centroid.CentroidFrameEntries | simple_object_tracking/trackers/centroid_tracker.py:88-107 | every current detection is either matched or registered, never both: each frame adds exactly its detections as entries, and the object count grows by the detections minus the matches |
| Centroid.CentroidRun | simple_object_tracking/trackers/centroid_tracker.py:82-107 | the run over n frames keeps histories well formed and ids equal to positions |
| Centroid.CentroidRunSpec | simple_object_tracking/trackers/centroid_tracker.py:82-107 | over n frames, the histories gain exactly the detections of those frames |
| Centroid.CentroidRunFirstRegisters | simple_object_tracking/trackers/centroid_tracker.py:83-85 | frame 0 registers every detection at frame 0, in order, with consecutive ids, and touches no earlier object |
| Centroid.CentroidRunNext | simple_object_tracking/trackers/centroid_tracker.py:87-107 | frame n runs on the registry left by frames 0 to n - 1 |
| Centroid.CentroidFrameSteps | simple_object_tracking/trackers/centroid_tracker.py:88-107 | a frame is the step's updates, then registration of the leftovers, then the sweep, in that order |
| Centroid.StepFailure | simple_object_tracking/trackers/centroid_tracker.py:74-78 | an `update_object` that raises ends the step with its error, after the updates before it |
| Centroid.ApplyUpdatesSnoc | simple_object_tracking/trackers/centroid_tracker.py:74-78 | one more update applies to the registry the earlier ones left, unless they raised |
| Centroid.ActualDistances | simple_object_tracking/trackers/centroid_tracker.py:56-63 | the inner loop computes `Distances` |
| Centroid.CentroidTracker.constructor | simple_object_tracking/trackers/centroid_tracker.py:29-38 | the tracker starts with an empty registry and the given bounds |
| Centroid.CentroidTracker.MatchingStep | simple_object_tracking/trackers/centroid_tracker.py:40-80 | the two caller lists are extended by exactly the matches of `MatchingOf`, and the registry receives exactly its updates; an update that raises ends the step with that error |
| Centroid.CentroidTracker.MatchingIteration | simple_object_tracking/trackers/centroid_tracker.py:55-80 | one iteration either advances the greedy pass by one current object or ends it with the error its update raised |
| Centroid.CentroidTracker.MatchDetection | simple_object_tracking/trackers/centroid_tracker.py:55-78 | picks the candidate's position, matches exactly when it is free and in range, and then makes the one update on its id |
| Centroid.CentroidTracker.MatchFrame | simple_object_tracking/trackers/centroid_tracker.py:88-98 | in the frame loop the step's updates all succeed, and it returns the matched current indices |
| Centroid.CentroidTracker.RegisterUnmatched | simple_object_tracking/trackers/centroid_tracker.py:100-102 | exactly the unmatched current objects are registered, in order, at the current frame |
| Centroid.CentroidTracker.RegisterIfUnmatched | simple_object_tracking/trackers/centroid_tracker.py:101-102 | one iteration registers current object j exactly when it is unmatched |
| Centroid.CentroidTracker.RegisterFresh | simple_object_tracking/trackers/centroid_tracker.py:102 | one registration appends one fresh object |
| Centroid.CentroidTracker.MatchRegisterEvict | simple_object_tracking/trackers/centroid_tracker.py:88-107 | one frame leaves the registry of `CentroidFrame` |
| Centroid.CentroidTracker.ProcessFrame | simple_object_tracking/trackers/centroid_tracker.py:87-107 | after frame k the registry is the run over k + 1 frames |
| Centroid.CentroidTracker.RegisterInitial | simple_object_tracking/trackers/centroid_tracker.py:84-85 | registers every detection of frame 0 at frame 0, in order |
| Centroid.CentroidTracker.FrameLoop | simple_object_tracking/trackers/centroid_tracker.py:87-107 | the loop over frames 1 onwards leaves the run over all frames |
| Centroid.CentroidTracker.Algorithm | simple_object_tracking/trackers/centroid_tracker.py:82-107 | fails exactly when there is no frame 0; otherwise the registry afterwards is `CentroidRun` over all frames |

## Left out

- Euclidean distance and floating-point tolerance are replaced by squared integer distance.
  - `CentroidTracker` squares the integer bound `max_distance_allowed`.
  - `CentroidLinearTracker`'s `_distance_tolerance` (`max(width, height) * factor`) is modelled as a real, `CentroidLinear.DistanceTolerance`. The tracker keeps its square, rounded up (`CentroidLinear.ToleranceSquared`). Floating-point rounding of the product and of the Euclidean norm is not modelled.
- The detector and the three filter functions are foreign code, so they are parameters of the configuration. The model checks only which filters run and in what order.
- `utils/geometry.py`, `utils/maths.py` and `utils.py` are left out: their float norms and point-to-line distance sit behind the distance abstraction above.
- Video I/O, drawing, the example notebook, `setup.py` and `typing.py` are left out. `__str__` formatting is left out too, and so is the empty `interpolate_positions` stub.
- `TrackedObjects.__getitem__`, `__setitem__`, `__len__` and `tracked_objects` are plain accessors. The model reads the `tracked` field directly instead.
- `CentroidTracker._algorithm` calls `self.objects.objects()`, a method that `TrackedObjects` does not have.
  - The model calls `registered_objects()`: that method returns the `(id, frame, object)` tuples `_matching_step` unpacks.
  - `self.frames_to_unregister_missing_objects` is never set, so it is a constructor parameter.
- `Centroid.CentroidTracker.MatchingStep` returns the two extended lists instead of appending to caller-owned lists. Aliasing of those lists is not modelled.
- The `CentroidLinearTracker` constructor keeps only the configuration and the squared tolerance of the frame size and factor. `max_previous_frames_matching` is never read.
- `CentroidLinear.CentroidLinearTracker.constructor` and `Centroid.CentroidTracker.constructor` require the corrected construction check (`Tracker.ValidConfig`, that is `Tracker.CheckConfigFixed`; see Findings), not the check as written at simple_object_tracking/tracker.py:46. So they accept a configuration with a detector and no detection list, which the Python constructor rejects with an AssertionError.
- `CentroidLinear.CentroidLinearTracker.Algorithm` and `Centroid.CentroidTracker.Algorithm` fail with `IndexOutOfRange(0)` when the sequence has no frame 0, as the Python raises an IndexError at `objects_in_frame(0)`. Only a configuration that passes the corrected check and not the written one gets there: a detector alone over an empty sequence. Under the written check, `Tracker.CheckConfigSpec` gives one detection list per frame and at least one frame, so neither `Algorithm` fails.
- `ObjectTracker.run` only calls `_algorithm`, so it is the `Algorithm` methods.

## Findings

| source | as written | input that shows it | evidently intended | confidence | as-written member | corrected member |
|---|---|---|---|---|---|---|
| simple_object_tracking/datastructures.py:212-228 | `remove_objects_with_less_detections_than` passes ascending ids to `purge_objects`, which pops each from the already-shortened list | detections [1, 5, 2, 4], minimum 3: it removes ids 0 then 2, that is the objects with 1 and 4 detections, and keeps the one with 2; with [5, 5, 1, 1] the second pop is out of range | remove exactly the objects with fewer detections than the minimum, renumbering the rest | not executed | Datastructures.PurgeAscendingRemovesWrongObject | Datastructures.PurgeDescendingRemovesExactly |
| simple_object_tracking/tracker.py:46 | the length assertion demands a non-empty detection list even when a detector is given | a detector with no detection list: the second assertion fails, although `objects_in_frame` (tracker.py:68-70) has a branch for exactly that case | check the length only of a detection list that is given | not executed | Tracker.DetectorAloneRejected | Tracker.CheckConfigFixedSpec |
