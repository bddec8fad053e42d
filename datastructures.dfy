/** The newer registry of tracked objects: `TrackedObject`, the history of one
    tracked entity, and `TrackedObjects`, the collection of every object ever
    registered in a sequence, with registration, update, eviction, queries and
    the post-hoc purge. The classes hold the state the source mutates in place;
    `TrackState` is the value of one object at one moment, and the functions
    over `seq<TrackState>` specify what each operation does to the collection. */
module Datastructures {
  import opened Common

  /** The `(id, frame, object)` tuple the registry hands out. */
  datatype TrackedObjectDetection = TrackedObjectDetection(id: int, frame: int, obj: Detection)

  /** The value of a `TrackedObject`: its id, its status (true while registered)
      and its history as two parallel lists. The read-only members of the
      source's class (`__len__`, `__getitem__`, `find_in_frame`) are defined here,
      on the value they read. */
  datatype TrackState = TrackState(id: int, status: bool, frames: seq<int>, detections: seq<Detection>)
  {
    /** A history is never empty and its two lists grow together. */
    predicate WellFormed()
    {
      |frames| == |detections| && |frames| >= 1
    }

    /** `__len__`: the number of times the object was detected. */
    function Length(): (n: nat)
      requires WellFormed()
      ensures n >= 1 && n == |frames|
    {
      |detections|
    }

    /** `__getitem__`: the entry at a Python index; `None` where the source
        raises IndexError (explicitly for `item >= len`, from the list below
        `-len`). */
    function Get(item: int): (r: Option<TrackedObjectDetection>)
      requires WellFormed()
      ensures r.Some? <==> -(|frames| as int) <= item < |frames|
      ensures 0 <= item < |frames| ==> r == Some(TrackedObjectDetection(id, frames[item], detections[item]))
      ensures -(|frames| as int) <= item < 0 ==>
                r == Some(TrackedObjectDetection(id, frames[|frames| + item], detections[|frames| + item]))
    {
      if item >= |detections| then None
      else match PyIndex(item, |detections|)
        case None => None
        case Some(k) => Some(TrackedObjectDetection(id, frames[k], detections[k]))
    }

    /** `obj[-1]`: the most recent entry. */
    function Last(): (r: TrackedObjectDetection)
      requires WellFormed()
      ensures r == TrackedObjectDetection(id, frames[|frames| - 1], detections[|frames| - 1])
    {
      Get(-1).value
    }

    /** `find_in_frame`: the entry at the first position whose frame is `frame`,
        or `None` when the object was not seen in that frame. */
    function FindInFrame(frame: int): (r: Option<TrackedObjectDetection>)
      requires WellFormed()
      ensures r.None? <==> frame !in frames
      ensures r.Some? ==> r.value.id == id && r.value.frame == frame
      ensures r.Some? ==> r.value.obj == detections[IndexOf(frames, frame)]
    {
      var k := IndexOf(frames, frame);
      if k == |frames| then None
      else Some(TrackedObjectDetection(id, frames[k], detections[k]))
    }

    /** The history with one more entry. */
    function Appended(frame: int, obj: Detection): TrackState
    {
      TrackState(id, status, frames + [frame], detections + [obj])
    }
  }

  /** One tracked entity; the source updates its fields in place. */
  class TrackedObject {
    var id: int
    var status: bool
    var frames: seq<int>
    var detections: seq<Detection>

    function Value(): TrackState
      reads this
    {
      TrackState(id, status, frames, detections)
    }

    ghost predicate Valid()
      reads this
    {
      Value().WellFormed()
    }

    /** A new object has exactly one entry. */
    constructor (objId: int, initialStatus: bool, iniFrame: int, iniObj: Detection)
      ensures Valid()
      ensures Value() == TrackState(objId, initialStatus, [iniFrame], [iniObj])
      ensures Value().Length() == 1
    {
      id := objId;
      status := initialStatus;
      frames := [iniFrame];
      detections := [iniObj];
    }

    /** `append`: both lists grow by one entry and nothing earlier changes. */
    method Append(frame: int, obj: Detection)
      requires Valid()
      modifies this
      ensures Valid()
      ensures Value() == old(Value()).Appended(frame, obj)
      ensures Value().Length() == old(Value().Length()) + 1
      ensures frames[..|frames| - 1] == old(frames) && detections[..|detections| - 1] == old(detections)
    {
      frames := frames + [frame];
      detections := detections + [obj];
    }
  }

  predicate AllWellFormed(ts: seq<TrackState>)
  {
    forall i :: 0 <= i < |ts| ==> ts[i].WellFormed()
  }

  /** Ids are the storage positions: what registration alone produces. */
  predicate DenseIds(ts: seq<TrackState>)
  {
    forall i :: 0 <= i < |ts| ==> ts[i].id == i
  }

  /** Total number of history entries over all objects. */
  function Entries(ts: seq<TrackState>): nat
  {
    if ts == [] then 0 else Entries(ts[..|ts| - 1]) + |ts[|ts| - 1].detections|
  }

  /** The object `register_object` appends. */
  function Fresh(uid: int, frame: int, obj: Detection): (t: TrackState)
    ensures t.WellFormed() && t.status && t.Length() == 1
  {
    TrackState(uid, true, [frame], [obj])
  }

  /** `update_object` on the values: the check `len < obj_id` raises the
      registry's exception; `obj_id == len` passes it and then fails as an
      IndexError of the list, as does `obj_id < -len`; the status of the target
      is not consulted. */
  function UpdateTracks(ts: seq<TrackState>, objId: int, frame: int, obj: Detection): (r: Result<seq<TrackState>>)
    ensures r == Err(NotRegistered(objId)) <==> objId > |ts|
    ensures objId == |ts| || objId < -(|ts| as int) ==> r == Err(IndexOutOfRange(objId))
    ensures r.Ok? <==> -(|ts| as int) <= objId < |ts|
    ensures r.Ok? ==> var k := PyIndex(objId, |ts|).value;
                      |r.value| == |ts| && r.value[k] == ts[k].Appended(frame, obj) &&
                      forall i :: 0 <= i < |ts| && i != k ==> r.value[i] == ts[i]
  {
    if |ts| < objId then Err(NotRegistered(objId))
    else match PyIndex(objId, |ts|)
      case None => Err(IndexOutOfRange(objId))
      case Some(k) => Ok(ts[k := ts[k].Appended(frame, obj)])
  }

  /** Frames since the object was last seen, as `unregister_missing_objects`
      computes it. */
  function Elapsed(t: TrackState, frame: int): int
    requires t.WellFormed()
  {
    frame - t.Last().frame
  }

  function Evicted(t: TrackState, frame: int, maxFramesMissing: int): TrackState
    requires t.WellFormed()
  {
    if Elapsed(t, frame) > maxFramesMissing then t.(status := false) else t
  }

  /** `unregister_missing_objects` on the values. */
  function Unregistered(ts: seq<TrackState>, frame: int, maxFramesMissing: int): (r: seq<TrackState>)
    requires AllWellFormed(ts)
  {
    seq(|ts|, i requires 0 <= i < |ts| => Evicted(ts[i], frame, maxFramesMissing))
  }

  /** The sweep clears the status exactly of the objects missing for strictly
      more than `maxFramesMissing` frames, never sets it, and leaves ids and
      histories alone. */
  lemma UnregisteredSpec(ts: seq<TrackState>, frame: int, maxFramesMissing: int)
    requires AllWellFormed(ts)
    ensures var r := Unregistered(ts, frame, maxFramesMissing);
            |r| == |ts| && AllWellFormed(r) &&
            forall i :: 0 <= i < |ts| ==>
              && r[i].id == ts[i].id
              && r[i].frames == ts[i].frames
              && r[i].detections == ts[i].detections
              && (r[i].status <==> ts[i].status && frame - ts[i].frames[|ts[i].frames| - 1] <= maxFramesMissing)
  {
  }

  /** Running the sweep twice with the same arguments changes nothing more. */
  lemma UnregisteredIdempotent(ts: seq<TrackState>, frame: int, maxFramesMissing: int)
    requires AllWellFormed(ts)
    ensures Unregistered(Unregistered(ts, frame, maxFramesMissing), frame, maxFramesMissing)
         == Unregistered(ts, frame, maxFramesMissing)
  {
    var r := Unregistered(ts, frame, maxFramesMissing);
    assert AllWellFormed(r);
    var rr := Unregistered(r, frame, maxFramesMissing);
    assert forall i :: 0 <= i < |ts| ==> rr[i] == r[i];
  }

  /** The eviction boundary: an object last seen at frame `k` is still
      registered after the sweep at `k + T` and unregistered by the sweep at
      `k + T + 1`. */
  lemma EvictionBoundary(t: TrackState, threshold: int)
    requires t.WellFormed() && t.status
    ensures Evicted(t, t.Last().frame + threshold, threshold).status
    ensures !Evicted(t, t.Last().frame + threshold + 1, threshold).status
  {
  }

  /** `frame_objects` on the values: the `find_in_frame` hit of every object
      seen at `frame`, in storage order. */
  function FrameObjectsOf(ts: seq<TrackState>, frame: int): (r: seq<TrackedObjectDetection>)
    requires AllWellFormed(ts)
    ensures |r| <= |ts|
  {
    if ts == [] then []
    else
      var front := FrameObjectsOf(ts[..|ts| - 1], frame);
      match ts[|ts| - 1].FindInFrame(frame)
      case None => front
      case Some(d) => front + [d]
  }

  /** With ids equal to positions, `frame_objects` reports, in increasing id
      order, exactly the objects whose history has an entry at `frame`, each
      with that entry, whatever its status. */
  lemma FrameObjectsOfSpec(ts: seq<TrackState>, frame: int)
    requires AllWellFormed(ts) && DenseIds(ts)
    ensures var r := FrameObjectsOf(ts, frame);
            && (forall k :: 0 <= k < |r| ==>
                  0 <= r[k].id < |ts| && Some(r[k]) == ts[r[k].id].FindInFrame(frame))
            && (forall k, l :: 0 <= k < l < |r| ==> r[k].id < r[l].id)
            && (forall i :: 0 <= i < |ts| && frame in ts[i].frames ==>
                  exists k :: 0 <= k < |r| && r[k].id == i)
  {
    FrameObjectsOfSound(ts, frame);
    FrameObjectsOfSorted(ts, frame);
    FrameObjectsOfComplete(ts, frame);
  }

  /** Removing the last object leaves a well-formed dense front, and the
      query on the whole is the query on the front plus the last object's
      entry when it has one. */
  lemma FrameObjectsOfSnoc(ts: seq<TrackState>, frame: int)
    requires AllWellFormed(ts) && DenseIds(ts) && ts != []
    ensures var n := |ts| - 1;
            var front := ts[..n];
            var fr := FrameObjectsOf(front, frame);
            var r := FrameObjectsOf(ts, frame);
            && AllWellFormed(front) && DenseIds(front)
            && (frame in ts[n].frames ==> r == fr + [ts[n].FindInFrame(frame).value] && r[|fr|].id == n)
            && (frame !in ts[n].frames ==> r == fr)
  {
    var front := ts[..|ts| - 1];
    assert forall i :: 0 <= i < |front| ==> front[i] == ts[i];
  }

  /** Every reported entry is the object's own entry at `frame`. */
  lemma {:induction false} FrameObjectsOfSound(ts: seq<TrackState>, frame: int)
    requires AllWellFormed(ts) && DenseIds(ts)
    ensures var r := FrameObjectsOf(ts, frame);
            forall k :: 0 <= k < |r| ==>
              0 <= r[k].id < |ts| && Some(r[k]) == ts[r[k].id].FindInFrame(frame)
  {
    if ts != [] {
      var front := ts[..|ts| - 1];
      FrameObjectsOfSnoc(ts, frame);
      FrameObjectsOfSound(front, frame);
      var r := FrameObjectsOf(ts, frame);
      var fr := FrameObjectsOf(front, frame);
      forall k | 0 <= k < |r|
        ensures 0 <= r[k].id < |ts| && Some(r[k]) == ts[r[k].id].FindInFrame(frame)
      {
        if k < |fr| {
          assert r[k] == fr[k];
          assert front[fr[k].id] == ts[fr[k].id];
        }
      }
    }
  }

  /** The reported ids increase. */
  lemma {:induction false} FrameObjectsOfSorted(ts: seq<TrackState>, frame: int)
    requires AllWellFormed(ts) && DenseIds(ts)
    ensures var r := FrameObjectsOf(ts, frame);
            forall k, l :: 0 <= k < l < |r| ==> r[k].id < r[l].id
  {
    if ts != [] {
      var front := ts[..|ts| - 1];
      FrameObjectsOfSnoc(ts, frame);
      FrameObjectsOfSorted(front, frame);
      FrameObjectsOfSound(front, frame);
    }
  }

  /** Every object seen at `frame` is reported. */
  lemma {:induction false} FrameObjectsOfComplete(ts: seq<TrackState>, frame: int)
    requires AllWellFormed(ts) && DenseIds(ts)
    ensures var r := FrameObjectsOf(ts, frame);
            forall i :: 0 <= i < |ts| && frame in ts[i].frames ==>
              exists k :: 0 <= k < |r| && r[k].id == i
  {
    if ts != [] {
      var n := |ts| - 1;
      var front := ts[..n];
      FrameObjectsOfSnoc(ts, frame);
      FrameObjectsOfComplete(front, frame);
      var r := FrameObjectsOf(ts, frame);
      var fr := FrameObjectsOf(front, frame);
      forall i | 0 <= i < |ts| && frame in ts[i].frames
        ensures exists k :: 0 <= k < |r| && r[k].id == i
      {
        if i < n {
          assert front[i] == ts[i];
          var k :| 0 <= k < |fr| && fr[k].id == i;
          assert r[k] == fr[k];
        } else {
          assert r[|fr|].id == i;
        }
      }
    }
  }

  /** `registered_objects` on the values: the last entry of every object whose
      status is true, in storage order. */
  function RegisteredOf(ts: seq<TrackState>): (r: seq<TrackedObjectDetection>)
    requires AllWellFormed(ts)
    ensures |r| <= |ts|
  {
    if ts == [] then []
    else
      var front := RegisteredOf(ts[..|ts| - 1]);
      var t := ts[|ts| - 1];
      if t.status then front + [t.Last()] else front
  }

  /** With ids equal to positions, `registered_objects` lists, in increasing id
      order, exactly the objects with status true, each with its last entry. */
  lemma RegisteredOfSpec(ts: seq<TrackState>)
    requires AllWellFormed(ts) && DenseIds(ts)
    ensures var r := RegisteredOf(ts);
            && (forall k :: 0 <= k < |r| ==>
                  0 <= r[k].id < |ts| && ts[r[k].id].status && r[k] == ts[r[k].id].Last())
            && (forall k, l :: 0 <= k < l < |r| ==> r[k].id < r[l].id)
            && (forall i :: 0 <= i < |ts| && ts[i].status ==>
                  exists k :: 0 <= k < |r| && r[k].id == i)
  {
    RegisteredOfSound(ts);
    RegisteredOfSorted(ts);
    RegisteredOfComplete(ts);
  }

  /** Removing the last object leaves a well-formed dense front, and the
      query on the whole is the query on the front plus the last object's
      last entry when it is registered. */
  lemma RegisteredOfSnoc(ts: seq<TrackState>)
    requires AllWellFormed(ts) && DenseIds(ts) && ts != []
    ensures var n := |ts| - 1;
            var front := ts[..n];
            var fr := RegisteredOf(front);
            var r := RegisteredOf(ts);
            && AllWellFormed(front) && DenseIds(front)
            && (ts[n].status ==> r == fr + [ts[n].Last()] && r[|fr|].id == n)
            && (!ts[n].status ==> r == fr)
  {
    var front := ts[..|ts| - 1];
    assert forall i :: 0 <= i < |front| ==> front[i] == ts[i];
  }

  /** Every listed entry is the last entry of a registered object. */
  lemma {:induction false} RegisteredOfSound(ts: seq<TrackState>)
    requires AllWellFormed(ts) && DenseIds(ts)
    ensures var r := RegisteredOf(ts);
            forall k :: 0 <= k < |r| ==>
              0 <= r[k].id < |ts| && ts[r[k].id].status && r[k] == ts[r[k].id].Last()
  {
    if ts != [] {
      var front := ts[..|ts| - 1];
      RegisteredOfSnoc(ts);
      RegisteredOfSound(front);
      var r := RegisteredOf(ts);
      var fr := RegisteredOf(front);
      forall k | 0 <= k < |r|
        ensures 0 <= r[k].id < |ts| && ts[r[k].id].status && r[k] == ts[r[k].id].Last()
      {
        if k < |fr| {
          assert r[k] == fr[k];
          assert front[fr[k].id] == ts[fr[k].id];
        }
      }
    }
  }

  /** The listed ids increase. */
  lemma {:induction false} RegisteredOfSorted(ts: seq<TrackState>)
    requires AllWellFormed(ts) && DenseIds(ts)
    ensures var r := RegisteredOf(ts);
            forall k, l :: 0 <= k < l < |r| ==> r[k].id < r[l].id
  {
    if ts != [] {
      var front := ts[..|ts| - 1];
      RegisteredOfSnoc(ts);
      RegisteredOfSorted(front);
      RegisteredOfSound(front);
    }
  }

  /** Every registered object is listed. */
  lemma {:induction false} RegisteredOfComplete(ts: seq<TrackState>)
    requires AllWellFormed(ts) && DenseIds(ts)
    ensures var r := RegisteredOf(ts);
            forall i :: 0 <= i < |ts| && ts[i].status ==>
              exists k :: 0 <= k < |r| && r[k].id == i
  {
    if ts != [] {
      var n := |ts| - 1;
      var front := ts[..n];
      RegisteredOfSnoc(ts);
      RegisteredOfComplete(front);
      var r := RegisteredOf(ts);
      var fr := RegisteredOf(front);
      forall i | 0 <= i < |ts| && ts[i].status
        ensures exists k :: 0 <= k < |r| && r[k].id == i
      {
        if i < n {
          assert front[i] == ts[i];
          var k :| 0 <= k < |fr| && fr[k].id == i;
          assert r[k] == fr[k];
        } else {
          assert r[|fr|].id == i;
        }
      }
    }
  }

  /** `list.pop(k)` on a valid position. */
  function Removed<T>(s: seq<T>, k: nat): (r: seq<T>)
    requires k < |s|
    ensures |r| == |s| - 1
    ensures forall i :: 0 <= i < |r| ==> r[i] == (if i < k then s[i] else s[i + 1])
  {
    s[..k] + s[k + 1..]
  }

  /** The inner loop of `purge_objects`: every object from `start` on has its
      id decremented. */
  function DecrementedFrom(ts: seq<TrackState>, start: nat): (r: seq<TrackState>)
  {
    seq(|ts|, i requires 0 <= i < |ts| => if i >= start then ts[i].(id := ts[i].id - 1) else ts[i])
  }

  /** What `purge_objects` leaves behind, and whether it returned normally. */
  datatype Purge = Purge(tracks: seq<TrackState>, ok: bool)

  /** `purge_objects` on the values: each id is popped, as a Python index, from
      the list as earlier pops left it, and every object from that position on
      has its id decremented; an invalid index raises IndexError with the
      earlier pops already done. */
  function PurgeOf(ts: seq<TrackState>, ids: seq<int>): (r: Purge)
    decreases |ids|
  {
    if ids == [] then Purge(ts, true)
    else match PyIndex(ids[0], |ts|)
      case None => Purge(ts, false)
      case Some(k) =>
        var rest := Removed(ts, k);
        PurgeOf(DecrementedFrom(rest, PySliceStart(ids[0], |rest|)), ids[1..])
  }

  /** Purging a single valid position `k` removes that object, decrements the
      id of every later one and leaves the earlier ones unchanged. */
  lemma PurgeSingle(ts: seq<TrackState>, k: nat)
    requires k < |ts|
    ensures var r := PurgeOf(ts, [k]);
            && r.ok && |r.tracks| == |ts| - 1
            && (forall i :: 0 <= i < k ==> r.tracks[i] == ts[i])
            && (forall i :: k <= i < |r.tracks| ==> r.tracks[i] == ts[i + 1].(id := ts[i + 1].id - 1))
  {
    var rest := Removed(ts, k);
    assert PurgeOf(ts, [k]) == PurgeOf(DecrementedFrom(rest, k), []);
  }

  /** Whatever non-negative ids are given, purging keeps ids equal to
      positions: each pop followed by the decrement of the tail closes the gap
      it opened. (A negative id would start the decrement one position early.) */
  lemma {:induction false} PurgeKeepsDenseIds(ts: seq<TrackState>, ids: seq<int>)
    requires DenseIds(ts)
    requires forall k :: 0 <= k < |ids| ==> ids[k] >= 0
    ensures DenseIds(PurgeOf(ts, ids).tracks)
    ensures |PurgeOf(ts, ids).tracks| <= |ts|
    decreases |ids|
  {
    if ids != [] {
      match PyIndex(ids[0], |ts|)
      case None =>
      case Some(k) =>
        var rest := Removed(ts, k);
        var next := DecrementedFrom(rest, PySliceStart(ids[0], |rest|));
        assert DenseIds(next);
        PurgeKeepsDenseIds(next, ids[1..]);
    }
  }

  /** The ids `remove_objects_with_less_detections_than` collects: those of the
      objects with fewer than `minimum` entries, in storage order. */
  function LessIds(ts: seq<TrackState>, minimum: int): (r: seq<int>)
    ensures |r| <= |ts|
  {
    if ts == [] then []
    else
      var front := LessIds(ts[..|ts| - 1], minimum);
      var t := ts[|ts| - 1];
      if |t.detections| < minimum then front + [t.id] else front
  }

  /** With ids equal to positions, the collected ids are strictly increasing
      and name exactly the objects with fewer than `minimum` entries. */
  lemma {:induction false} LessIdsSpec(ts: seq<TrackState>, minimum: int)
    requires DenseIds(ts)
    ensures var r := LessIds(ts, minimum);
            && (forall k :: 0 <= k < |r| ==> 0 <= r[k] < |ts| && |ts[r[k]].detections| < minimum)
            && (forall k, l :: 0 <= k < l < |r| ==> r[k] < r[l])
            && (forall i :: 0 <= i < |ts| ==> (i in r <==> |ts[i].detections| < minimum))
  {
    if ts != [] {
      var front := ts[..|ts| - 1];
      assert forall i :: 0 <= i < |front| ==> front[i] == ts[i];
      LessIdsSpec(front, minimum);
    }
  }

  /** The objects with at least `minimum` entries, in storage order. */
  function Survivors(ts: seq<TrackState>, minimum: int): (r: seq<TrackState>)
    ensures |r| <= |ts|
  {
    if ts == [] then []
    else
      var front := Survivors(ts[..|ts| - 1], minimum);
      var t := ts[|ts| - 1];
      if |t.detections| < minimum then front else front + [t]
  }

  /** The same objects with their ids set to their positions. */
  function Renumbered(ts: seq<TrackState>): (r: seq<TrackState>)
    ensures |r| == |ts| && DenseIds(r)
  {
    seq(|ts|, i requires 0 <= i < |ts| => ts[i].(id := i))
  }

  function Reversed<T>(s: seq<T>): (r: seq<T>)
    ensures |r| == |s|
    ensures forall i :: 0 <= i < |s| ==> r[i] == s[|s| - 1 - i]
  {
    if s == [] then [] else [s[|s| - 1]] + Reversed(s[..|s| - 1])
  }

  /** The behaviour `remove_objects_with_less_detections_than` evidently
      intends, obtained by purging the collected ids from the highest down:
      exactly the objects with fewer than `minimum` entries are removed, and
      the others keep their order and are renumbered 0, 1, ... */
  lemma {:induction false} PurgeDescendingRemovesExactly(ts: seq<TrackState>, minimum: int)
    requires DenseIds(ts)
    ensures PurgeOf(ts, Reversed(LessIds(ts, minimum))) == Purge(Renumbered(Survivors(ts, minimum)), true)
  {
    if ts != [] {
      var n := |ts| - 1;
      var front := ts[..n];
      assert forall i :: 0 <= i < |front| ==> front[i] == ts[i];
      PurgeDescendingRemovesExactly(front, minimum);
      if |ts[n].detections| < minimum {
        PurgeDescendingLastRemoved(ts, minimum);
      } else {
        PurgeDescendingLastKept(ts, minimum);
      }
    }
  }

  /** Inductive step when the last object is removed: it is popped first and
      the rest is the purge of the front. */
  lemma PurgeDescendingLastRemoved(ts: seq<TrackState>, minimum: int)
    requires DenseIds(ts) && ts != [] && |ts[|ts| - 1].detections| < minimum
    requires PurgeOf(ts[..|ts| - 1], Reversed(LessIds(ts[..|ts| - 1], minimum)))
          == Purge(Renumbered(Survivors(ts[..|ts| - 1], minimum)), true)
    ensures PurgeOf(ts, Reversed(LessIds(ts, minimum))) == Purge(Renumbered(Survivors(ts, minimum)), true)
  {
    var n := |ts| - 1;
    var front := ts[..n];
    var less := LessIds(front, minimum);
    assert LessIds(ts, minimum) == less + [n];
    assert Reversed(less + [n]) == [n] + Reversed(less);
    var rest := Removed(ts, n);
    assert rest == front;
    assert DecrementedFrom(rest, PySliceStart(n, |rest|)) == front;
    assert ([n] + Reversed(less))[1..] == Reversed(less);
    assert Survivors(ts, minimum) == Survivors(front, minimum);
  }

  /** Inductive step when the last object is kept: every pop happens in the
      front, and the last object is decremented once per pop, which lands it
      on its position among the survivors. */
  lemma PurgeDescendingLastKept(ts: seq<TrackState>, minimum: int)
    requires DenseIds(ts) && ts != [] && |ts[|ts| - 1].detections| >= minimum
    requires PurgeOf(ts[..|ts| - 1], Reversed(LessIds(ts[..|ts| - 1], minimum)))
          == Purge(Renumbered(Survivors(ts[..|ts| - 1], minimum)), true)
    ensures PurgeOf(ts, Reversed(LessIds(ts, minimum))) == Purge(Renumbered(Survivors(ts, minimum)), true)
  {
    var n := |ts| - 1;
    var front := ts[..n];
    var t := ts[n];
    LastKeptParts(ts, minimum);
    var less := LessIds(front, minimum);
    var down := Reversed(less);
    LessIdsReversedDecreasing(front, minimum);
    PurgeWithLastUntouched(front, t, down);
    var sf := Survivors(front, minimum);
    SurvivorsCount(front, minimum);
    assert t.(id := t.id - |down|) == t.(id := |sf|);
    RenumberedSnoc(sf, t);
  }

  /** Splitting off a kept last object: the front is dense, the collected ids
      all come from the front, and the object closes the survivors. */
  lemma LastKeptParts(ts: seq<TrackState>, minimum: int)
    requires DenseIds(ts) && ts != [] && |ts[|ts| - 1].detections| >= minimum
    ensures var front := ts[..|ts| - 1];
            && ts == front + [ts[|ts| - 1]] && DenseIds(front) && ts[|ts| - 1].id == |front|
            && LessIds(ts, minimum) == LessIds(front, minimum)
            && Survivors(ts, minimum) == Survivors(front, minimum) + [ts[|ts| - 1]]
  {
    var front := ts[..|ts| - 1];
    assert forall i :: 0 <= i < |front| ==> front[i] == ts[i];
  }

  /** The collected ids, reversed, are decreasing positions. */
  lemma LessIdsReversedDecreasing(ts: seq<TrackState>, minimum: int)
    requires DenseIds(ts)
    ensures var down := Reversed(LessIds(ts, minimum));
            && (forall k :: 0 <= k < |down| ==> 0 <= down[k] < |ts|)
            && (forall k, l :: 0 <= k < l < |down| ==> down[k] > down[l])
  {
    LessIdsSpec(ts, minimum);
    ReversedDecreasing(LessIds(ts, minimum), |ts|);
  }

  /** Reversing increasing values below `bound` gives decreasing ones. */
  lemma ReversedDecreasing(s: seq<int>, bound: int)
    requires forall k :: 0 <= k < |s| ==> 0 <= s[k] < bound
    requires forall k, l :: 0 <= k < l < |s| ==> s[k] < s[l]
    ensures var down := Reversed(s);
            && (forall k :: 0 <= k < |down| ==> 0 <= down[k] < bound)
            && (forall k, l :: 0 <= k < l < |down| ==> down[k] > down[l])
  {
    var down := Reversed(s);
    forall k, l | 0 <= k < l < |down|
      ensures down[k] > down[l]
    {
      assert down[k] == s[|s| - 1 - k] && down[l] == s[|s| - 1 - l];
    }
  }

  lemma RenumberedSnoc(s: seq<TrackState>, t: TrackState)
    ensures Renumbered(s + [t]) == Renumbered(s) + [t.(id := |s|)]
  {
  }

  /** Purging positions of `front` in decreasing order from `front + [t]`
      treats `front` as purging it alone would, and decrements `t` once per
      pop. */
  lemma {:induction false} PurgeWithLastUntouched(front: seq<TrackState>, t: TrackState, ids: seq<int>)
    requires forall k :: 0 <= k < |ids| ==> 0 <= ids[k] < |front|
    requires forall k, l :: 0 <= k < l < |ids| ==> ids[k] > ids[l]
    ensures PurgeOf(front + [t], ids)
         == Purge(PurgeOf(front, ids).tracks + [t.(id := t.id - |ids|)], PurgeOf(front, ids).ok)
    decreases |ids|
  {
    if ids != [] {
      var k := ids[0];
      var whole := front + [t];
      var rest := Removed(whole, k);
      var restF := Removed(front, k);
      assert rest == restF + [t];
      var next := DecrementedFrom(rest, k);
      var nextF := DecrementedFrom(restF, k);
      assert next == nextF + [t.(id := t.id - 1)];
      forall j | 0 <= j < |ids[1..]|
        ensures 0 <= ids[1..][j] < |nextF|
      {
        assert ids[1..][j] == ids[j + 1] < ids[0];
      }
      PurgeWithLastUntouched(nextF, t.(id := t.id - 1), ids[1..]);
      assert PurgeOf(whole, ids) == PurgeOf(next, ids[1..]);
      assert PurgeOf(front, ids) == PurgeOf(nextF, ids[1..]);
    }
  }

  /** The survivors and the collected ids split the objects between them. */
  lemma {:induction false} SurvivorsCount(ts: seq<TrackState>, minimum: int)
    ensures |Survivors(ts, minimum)| + |LessIds(ts, minimum)| == |ts|
  {
    if ts != [] {
      SurvivorsCount(ts[..|ts| - 1], minimum);
    }
  }

  function Track(uid: int, detections: nat): TrackState
  {
    TrackState(uid, true, seq(detections, i => i), seq(detections, i => Detection(Point(0, 0), 0, "")))
  }

  /** As written, the collected ids are popped in increasing order from a list
      that shrinks at each pop: with detection counts [1, 5, 2, 4] and a minimum
      of 3 the ids are [0, 2]; the second pop removes the object with 4
      detections and the one with 2 stays. */
  lemma PurgeAscendingRemovesWrongObject()
    ensures var ts := [Track(0, 1), Track(1, 5), Track(2, 2), Track(3, 4)];
            && LessIds(ts, 3) == [0, 2]
            && PurgeOf(ts, LessIds(ts, 3)) == Purge([Track(0, 5), Track(1, 2)], true)
            && Renumbered(Survivors(ts, 3)) == [Track(0, 5), Track(1, 4)]
  {
    var ts := [Track(0, 1), Track(1, 5), Track(2, 2), Track(3, 4)];
    assert ts[..3] == [Track(0, 1), Track(1, 5), Track(2, 2)];
    assert ts[..3][..2] == [Track(0, 1), Track(1, 5)];
    assert ts[..3][..2][..1] == [Track(0, 1)];
    assert ts[..3][..2][..1][..0] == [];
    assert LessIds([Track(0, 1)], 3) == [0];
    assert LessIds([Track(0, 1), Track(1, 5)], 3) == [0];
    assert LessIds([Track(0, 1), Track(1, 5), Track(2, 2)], 3) == [0, 2];
    assert LessIds(ts, 3) == [0, 2];
    var r1 := DecrementedFrom(Removed(ts, 0), 0);
    assert r1 == [Track(0, 5), Track(1, 2), Track(2, 4)];
    var r2 := DecrementedFrom(Removed(r1, 2), 2);
    assert r2 == [Track(0, 5), Track(1, 2)];
    assert PurgeOf(ts, [0, 2]) == PurgeOf(r1, [2]);
    assert PurgeOf(r1, [2]) == PurgeOf(r2, []);
    assert Survivors([Track(0, 1)], 3) == [];
    assert Survivors([Track(0, 1), Track(1, 5)], 3) == [Track(1, 5)];
    assert Survivors([Track(0, 1), Track(1, 5), Track(2, 2)], 3) == [Track(1, 5)];
    assert Survivors(ts, 3) == [Track(1, 5), Track(3, 4)];
  }

  /** As written, the same purge can also pop past the end: with detection
      counts [5, 5, 1, 1] and a minimum of 3 the ids are [2, 3], and after the
      first pop index 3 no longer exists, so the call raises IndexError. */
  lemma PurgeAscendingRaises()
    ensures var ts := [Track(0, 5), Track(1, 5), Track(2, 1), Track(3, 1)];
            && LessIds(ts, 3) == [2, 3]
            && !PurgeOf(ts, LessIds(ts, 3)).ok
  {
    var ts := [Track(0, 5), Track(1, 5), Track(2, 1), Track(3, 1)];
    assert ts[..3] == [Track(0, 5), Track(1, 5), Track(2, 1)];
    assert ts[..3][..2] == [Track(0, 5), Track(1, 5)];
    assert ts[..3][..2][..1] == [Track(0, 5)];
    assert ts[..3][..2][..1][..0] == [];
    assert LessIds([Track(0, 5)], 3) == [];
    assert LessIds([Track(0, 5), Track(1, 5)], 3) == [];
    assert LessIds([Track(0, 5), Track(1, 5), Track(2, 1)], 3) == [2];
    assert LessIds(ts, 3) == [2, 3];
    var r1 := DecrementedFrom(Removed(ts, 2), 2);
    assert |r1| == 3;
    assert PurgeOf(ts, [2, 3]) == PurgeOf(r1, [3]);
  }

  /** The collection of tracked objects. */
  class TrackedObjects {
    var nextUid: int
    var tracked: seq<TrackedObject>

    /** Every position holds a distinct, well-formed object. */
    ghost predicate Valid()
      reads this, tracked
    {
      && (forall i, j :: 0 <= i < j < |tracked| ==> tracked[i] != tracked[j])
      && (forall i :: 0 <= i < |tracked| ==> tracked[i].Valid())
    }

    /** The values of the stored objects, in storage order. */
    ghost function State(): (ts: seq<TrackState>)
      reads this, tracked
      ensures |ts| == |tracked|
      ensures forall i :: 0 <= i < |tracked| ==> ts[i] == tracked[i].Value()
    {
      seq(|tracked|, i reads this, tracked requires 0 <= i < |tracked| => tracked[i].Value())
    }

    /** Without purges, object `i` has id `i` and the counter is the length. */
    ghost predicate Dense()
      reads this, tracked
    {
      nextUid == |tracked| && DenseIds(State())
    }

    lemma ValidStateWellFormed()
      requires Valid()
      ensures AllWellFormed(State())
    {
    }

    constructor ()
      ensures Valid() && Dense() && State() == [] && nextUid == 0
    {
      nextUid := 0;
      tracked := [];
    }

    /** `_next_uid_and_increment`. */
    method NextUidAndIncrement() returns (uid: int)
      modifies this`nextUid
      ensures uid == old(nextUid) && nextUid == old(nextUid) + 1
    {
      uid := nextUid;
      nextUid := nextUid + 1;
    }

    /** `register_object`: appends one registered object whose id is the old
        counter, increments the counter and returns true. */
    method RegisterObject(obj: Detection, frame: int) returns (ok: bool)
      requires Valid()
      modifies this
      ensures Valid() && ok
      ensures nextUid == old(nextUid) + 1
      ensures State() == old(State()) + [Fresh(old(nextUid), frame, obj)]
      ensures |tracked| == old(|tracked|) + 1 && tracked[..|tracked| - 1] == old(tracked)
      ensures fresh(tracked[|tracked| - 1])
      ensures old(Dense()) ==> Dense()
    {
      var uid := NextUidAndIncrement();
      var stored := new TrackedObject(uid, true, frame, obj);
      tracked := tracked + [stored];
      ok := true;
      assert State() == old(State()) + [Fresh(old(nextUid), frame, obj)];
    }

    /** `update_object`: appends `(frame, obj)` to the history of one object
        and changes nothing else, or raises as `UpdateTracks` says. */
    method UpdateObject(obj: Detection, objId: int, frame: int) returns (r: Outcome)
      requires Valid()
      modifies tracked
      ensures Valid() && nextUid == old(nextUid) && tracked == old(tracked)
      ensures match UpdateTracks(old(State()), objId, frame, obj)
              case Ok(ts) => r == Pass && State() == ts
              case Err(e) => r == Fail(e) && State() == old(State())
    {
      if |tracked| < objId {
        return Fail(NotRegistered(objId));
      }
      match PyIndex(objId, |tracked|)
      case None =>
        r := Fail(IndexOutOfRange(objId));
      case Some(k) =>
        var trackedObject := tracked[k];
        trackedObject.Append(frame, obj);
        r := Pass;
        assert State() == old(State())[k := old(State())[k].Appended(frame, obj)];
    }

    /** `unregister_missing_objects`. */
    method UnregisterMissingObjects(frame: int, maxFramesMissing: int)
      requires Valid()
      modifies tracked
      ensures Valid() && nextUid == old(nextUid) && tracked == old(tracked)
      ensures AllWellFormed(old(State()))
      ensures State() == Unregistered(old(State()), frame, maxFramesMissing)
    {
      ghost var before := State();
      var i := 0;
      while i < |tracked|
        invariant i <= |tracked| && tracked == old(tracked)
        invariant EvictedUpTo(before, frame, maxFramesMissing, i)
      {
        EvictAt(i, frame, maxFramesMissing, before);
        i := i + 1;
      }
      assert State() == Unregistered(before, frame, maxFramesMissing);
    }

    /** The sweep of `unregister_missing_objects` has visited the objects
        before position `i` of the registry that held `before`. */
    ghost predicate EvictedUpTo(before: seq<TrackState>, frame: int, maxFramesMissing: int, i: nat)
      reads this, tracked
    {
      && Valid() && |before| == |tracked| && AllWellFormed(before)
      && forall k :: 0 <= k < |tracked| ==>
           tracked[k].Value() == if k < i then Evicted(before[k], frame, maxFramesMissing) else before[k]
    }

    /** One iteration of the sweep: the object at position `i` loses its
        status when it has been missing for too long. */
    method EvictAt(i: nat, frame: int, maxFramesMissing: int, ghost before: seq<TrackState>)
      requires i < |tracked| && EvictedUpTo(before, frame, maxFramesMissing, i)
      modifies tracked[i]
      ensures EvictedUpTo(before, frame, maxFramesMissing, i + 1)
    {
      var trackedObject := tracked[i];
      var framesElapsed := frame - trackedObject.Value().Get(-1).value.frame;
      if framesElapsed > maxFramesMissing {
        trackedObject.status := false;
      }
    }

    /** `frame_objects`. */
    method FrameObjects(frame: int) returns (r: seq<TrackedObjectDetection>)
      requires Valid()
      ensures AllWellFormed(State())
      ensures r == FrameObjectsOf(State(), frame)
    {
      r := [];
      var i := 0;
      while i < |tracked|
        invariant 0 <= i <= |tracked|
        invariant r == FrameObjectsOf(State()[..i], frame)
      {
        assert State()[..i + 1][..i] == State()[..i];
        var detection := tracked[i].Value().FindInFrame(frame);
        if detection.Some? {
          r := r + [detection.value];
        }
        i := i + 1;
      }
      assert State()[..i] == State();
    }

    /** `registered_objects`. */
    method RegisteredObjects() returns (r: seq<TrackedObjectDetection>)
      requires Valid()
      ensures AllWellFormed(State())
      ensures r == RegisteredOf(State())
    {
      r := [];
      var i := 0;
      while i < |tracked|
        invariant 0 <= i <= |tracked|
        invariant r == RegisteredOf(State()[..i])
      {
        assert State()[..i + 1][..i] == State()[..i];
        if tracked[i].status {
          r := r + [tracked[i].Value().Get(-1).value];
        }
        i := i + 1;
      }
      assert State()[..i] == State();
    }

    /** `purge_objects`. */
    method PurgeObjects(ids: seq<int>) returns (r: Outcome)
      requires Valid()
      modifies this, tracked
      ensures Valid() && nextUid == old(nextUid)
      ensures State() == PurgeOf(old(State()), ids).tracks
      ensures r.Pass? <==> PurgeOf(old(State()), ids).ok
    {
      var n := 0;
      while n < |ids|
        invariant 0 <= n <= |ids|
        invariant Valid() && nextUid == old(nextUid)
        invariant forall q :: 0 <= q < |tracked| ==> tracked[q] in old(tracked)
        invariant PurgeOf(State(), ids[n..]) == PurgeOf(old(State()), ids)
      {
        var id := ids[n];
        assert ids[n..][1..] == ids[n + 1..];
        match PyIndex(id, |tracked|)
        case None =>
          return Fail(IndexOutOfRange(id));
        case Some(k) =>
          Pop(k);
          DecrementIdsFrom(PySliceStart(id, |tracked|));
          n := n + 1;
      }
      r := Pass;
    }

    /** `self._tracked_objects.pop(k)` on a valid position. */
    method Pop(k: nat)
      requires Valid() && k < |tracked|
      modifies this
      ensures Valid() && nextUid == old(nextUid)
      ensures State() == Removed(old(State()), k)
      ensures forall q :: 0 <= q < |tracked| ==> tracked[q] in old(tracked)
    {
      tracked := tracked[..k] + tracked[k + 1..];
      assert forall q :: 0 <= q < |tracked| ==> tracked[q] == old(tracked)[if q < k then q else q + 1];
    }

    /** `for tracked_object in self._tracked_objects[start:]: tracked_object.id -= 1`. */
    method DecrementIdsFrom(start: nat)
      requires Valid() && start <= |tracked|
      modifies tracked
      ensures Valid() && tracked == old(tracked)
      ensures State() == DecrementedFrom(old(State()), start)
    {
      ghost var before := State();
      var m := start;
      while m < |tracked|
        invariant start <= m <= |tracked| && tracked == old(tracked)
        invariant DecrementedUpTo(before, start, m)
      {
        DecrementAt(m, start, before);
        m := m + 1;
      }
      assert State() == DecrementedFrom(before, start);
    }

    /** The loop over `self._tracked_objects[start:]` has visited the objects
        before position `m` of the registry that held `before`. */
    ghost predicate DecrementedUpTo(before: seq<TrackState>, start: nat, m: nat)
      reads this, tracked
    {
      && Valid() && |before| == |tracked|
      && forall q :: 0 <= q < |tracked| ==>
           tracked[q].Value() == if start <= q < m then before[q].(id := before[q].id - 1) else before[q]
    }

    /** One iteration of that loop: the object at position `m` has its id
        decremented. */
    method DecrementAt(m: nat, start: nat, ghost before: seq<TrackState>)
      requires start <= m < |tracked| && DecrementedUpTo(before, start, m)
      modifies tracked[m]
      ensures DecrementedUpTo(before, start, m + 1)
    {
      var trackedObject := tracked[m];
      trackedObject.id := trackedObject.id - 1;
    }

    /** `remove_objects_with_less_detections_than`, as written: collects the
        ids and purges them in increasing order. */
    method RemoveObjectsWithLessDetectionsThan(minimum: int) returns (removed: seq<int>, r: Outcome)
      requires Valid()
      modifies this, tracked
      ensures Valid() && nextUid == old(nextUid)
      ensures removed == LessIds(old(State()), minimum)
      ensures State() == PurgeOf(old(State()), removed).tracks
      ensures r.Pass? <==> PurgeOf(old(State()), removed).ok
    {
      removed := CollectLessIds(minimum);
      r := PurgeObjects(removed);
    }

    /** The comprehension that collects the ids to remove. */
    method CollectLessIds(minimum: int) returns (ids: seq<int>)
      ensures ids == LessIds(State(), minimum)
    {
      ids := [];
      var i := 0;
      while i < |tracked|
        invariant 0 <= i <= |tracked|
        invariant ids == LessIds(State()[..i], minimum)
      {
        assert State()[..i + 1][..i] == State()[..i];
        if |tracked[i].detections| < minimum {
          ids := ids + [tracked[i].id];
        }
        i := i + 1;
      }
      assert State()[..i] == State();
    }

    /** `remove_objects_with_less_detections_than` as evidently intended: the
        collected ids are purged from the highest down, which removes exactly
        the objects with fewer than `minimum` entries and renumbers the others
        0, 1, ... in their order. */
    method RemoveObjectsWithLessDetectionsThanFixed(minimum: int) returns (removed: seq<int>)
      requires Valid() && DenseIds(State())
      modifies this, tracked
      ensures Valid() && nextUid == old(nextUid)
      ensures removed == LessIds(old(State()), minimum)
      ensures State() == Renumbered(Survivors(old(State()), minimum))
    {
      removed := CollectLessIds(minimum);
      var r := PurgeObjects(Reversed(removed));
      PurgeDescendingRemovesExactly(old(State()), minimum);
    }
  }
}
