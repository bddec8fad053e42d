/** The abstract tracking engine: the configuration checks of its constructor,
    the per-frame detection source with its fixed filter chain, and the older
    registry `ObjectsRegistered`, which keeps five parallel lists and a list of
    unregistered uids. `Registry` is the value of that registry and its member
    functions specify each operation; the class holds the lists the source
    mutates in place. */
module Tracker {
  import opened Common

  /** The constructor's arguments that the engine reads. The detector and the
      three filter functions are foreign code, given here as functions: the
      detector maps a frame index to its detections, each filter maps a list of
      detections to a list of detections. A `None` detection list and an empty
      one are the same to the source (both are falsy), and so are `None` and an
      empty class list. */
  datatype TrackerConfig = TrackerConfig(
    sequenceLength: nat,
    hasDetector: bool,
    detector: int -> seq<Detection>,
    detections: seq<seq<Detection>>,
    minScore: int,
    classes: seq<string>,
    avoidDuplicated: bool,
    framesToUnregister: int,
    byMinScore: (seq<Detection>, int) -> seq<Detection>,
    byClasses: (seq<Detection>, seq<string>) -> seq<Detection>,
    avoidingDuplicated: seq<Detection> -> seq<Detection>)

  /** The two assertions of `ObjectTracker.__init__`, as written. */
  function CheckConfig(cfg: TrackerConfig): (r: Outcome)
  {
    if !(cfg.hasDetector || |cfg.detections| > 0) then Fail(NoDetectionSource)
    else if !(|cfg.detections| > 0 && |cfg.detections| == cfg.sequenceLength) then Fail(LengthMismatch)
    else Pass
  }

  /** As written, construction succeeds exactly when a non-empty detection
      list with one entry per frame is given; a detector does not matter. */
  lemma CheckConfigSpec(cfg: TrackerConfig)
    ensures CheckConfig(cfg).Pass? <==> |cfg.detections| > 0 && |cfg.detections| == cfg.sequenceLength
    ensures !cfg.hasDetector && |cfg.detections| == 0 ==> CheckConfig(cfg) == Fail(NoDetectionSource)
  {
  }

  /** As written, a tracker given only a detector always aborts, although
      `objects_in_frame` has a branch for exactly that case. */
  lemma DetectorAloneRejected(cfg: TrackerConfig)
    requires cfg.hasDetector && |cfg.detections| == 0
    ensures CheckConfig(cfg) == Fail(LengthMismatch)
  {
  }

  /** The checks as evidently intended: a detection source is required, and
      the length check applies only to a detection list that is given. */
  function CheckConfigFixed(cfg: TrackerConfig): (r: Outcome)
  {
    if !(cfg.hasDetector || |cfg.detections| > 0) then Fail(NoDetectionSource)
    else if |cfg.detections| > 0 && |cfg.detections| != cfg.sequenceLength then Fail(LengthMismatch)
    else Pass
  }

  /** The intended checks accept a detector alone, still reject a missing
      source and a detection list of the wrong length, and accept every
      configuration the written checks accept. */
  lemma CheckConfigFixedSpec(cfg: TrackerConfig)
    ensures CheckConfigFixed(cfg).Pass? <==>
              (cfg.hasDetector || |cfg.detections| > 0) &&
              (|cfg.detections| > 0 ==> |cfg.detections| == cfg.sequenceLength)
    ensures CheckConfig(cfg).Pass? ==> CheckConfigFixed(cfg).Pass?
    ensures cfg.hasDetector && |cfg.detections| == 0 ==> CheckConfigFixed(cfg).Pass?
  {
  }

  /** A configuration the engine can run with (the corrected checks). */
  predicate ValidConfig(cfg: TrackerConfig)
  {
    CheckConfigFixed(cfg).Pass?
  }

  /** The detections of one frame before filtering: the precomputed list when
      one was given, the detector's output otherwise. */
  function Source(cfg: TrackerConfig, frameId: nat): seq<Detection>
    requires ValidConfig(cfg) && frameId < cfg.sequenceLength
  {
    if |cfg.detections| > 0 then cfg.detections[frameId] else cfg.detector(frameId)
  }

  datatype FilterKind = MinScoreFilter | ClassFilter | DuplicateFilter

  function ApplyFilter(cfg: TrackerConfig, kind: FilterKind, objects: seq<Detection>): seq<Detection>
  {
    match kind
    case MinScoreFilter => cfg.byMinScore(objects, cfg.minScore)
    case ClassFilter => cfg.byClasses(objects, cfg.classes)
    case DuplicateFilter => cfg.avoidingDuplicated(objects)
  }

  function ApplyFilters(cfg: TrackerConfig, kinds: seq<FilterKind>, objects: seq<Detection>): seq<Detection>
    decreases |kinds|
  {
    if kinds == [] then objects else ApplyFilters(cfg, kinds[1..], ApplyFilter(cfg, kinds[0], objects))
  }

  /** The filters a configuration switches on, in the order the chain runs them. */
  function ActiveFilters(cfg: TrackerConfig): (kinds: seq<FilterKind>)
    ensures MinScoreFilter in kinds <==> cfg.minScore != 0
    ensures ClassFilter in kinds <==> |cfg.classes| > 0
    ensures DuplicateFilter in kinds <==> cfg.avoidDuplicated
    ensures NoDup(kinds)
    ensures forall i, j :: 0 <= i < j < |kinds| ==> Rank(kinds[i]) < Rank(kinds[j])
  {
    (if cfg.minScore != 0 then [MinScoreFilter] else [])
    + (if |cfg.classes| > 0 then [ClassFilter] else [])
    + (if cfg.avoidDuplicated then [DuplicateFilter] else [])
  }

  function Rank(kind: FilterKind): nat
  {
    match kind
    case MinScoreFilter => 0
    case ClassFilter => 1
    case DuplicateFilter => 2
  }

  /** `objects_in_frame`: the frame's detections, then the filters the
      configuration switches on. */
  function ObjectsInFrame(cfg: TrackerConfig, frameId: nat): (objects: seq<Detection>)
    requires ValidConfig(cfg) && frameId < cfg.sequenceLength
    ensures cfg.minScore == 0 && |cfg.classes| == 0 && !cfg.avoidDuplicated ==> objects == Source(cfg, frameId)
  {
    var objects := Source(cfg, frameId);
    var objects := if cfg.minScore != 0 then cfg.byMinScore(objects, cfg.minScore) else objects;
    var objects := if |cfg.classes| > 0 then cfg.byClasses(objects, cfg.classes) else objects;
    var objects := if cfg.avoidDuplicated then cfg.avoidingDuplicated(objects) else objects;
    objects
  }

  /** What `objects_in_frame` yields for each of the first `n` frames of the
      sequence, in frame order. */
  function FramesUpTo(cfg: TrackerConfig, n: nat): (frames: seq<seq<Detection>>)
    requires ValidConfig(cfg) && n <= cfg.sequenceLength
    ensures |frames| == n
  {
    if n == 0 then [] else FramesUpTo(cfg, n - 1) + [ObjectsInFrame(cfg, n - 1)]
  }

  /** The frames of the whole sequence. */
  function Frames(cfg: TrackerConfig): (frames: seq<seq<Detection>>)
    requires ValidConfig(cfg)
    ensures |frames| == cfg.sequenceLength
  {
    FramesUpTo(cfg, cfg.sequenceLength)
  }

  /** Entry `k` of the frames is what `objects_in_frame(k)` yields. */
  lemma {:induction false} FramesAt(cfg: TrackerConfig, n: nat, k: nat)
    requires ValidConfig(cfg) && k < n <= cfg.sequenceLength
    ensures FramesUpTo(cfg, n)[k] == ObjectsInFrame(cfg, k)
    decreases n
  {
    if k < n - 1 {
      FramesAt(cfg, n - 1, k);
    }
  }

  /** Frame `k` of the sequence is what `objects_in_frame(k)` yields. */
  lemma FrameOf(cfg: TrackerConfig, k: nat)
    requires ValidConfig(cfg) && k < cfg.sequenceLength
    ensures Frames(cfg)[k] == ObjectsInFrame(cfg, k)
  {
    FramesAt(cfg, cfg.sequenceLength, k);
  }

  /** Number of detections in the first `n` of the given frames. */
  function Detected(frames: seq<seq<Detection>>, n: nat): nat
    requires n <= |frames|
  {
    if n == 0 then 0 else Detected(frames, n - 1) + |frames[n - 1]|
  }

  /** Number of detections in frames `0 .. n - 1` after filtering. */
  function DetectionsUpTo(cfg: TrackerConfig, n: nat): nat
    requires ValidConfig(cfg) && n <= cfg.sequenceLength
  {
    Detected(Frames(cfg), n)
  }

  lemma DetectionsUpToStep(cfg: TrackerConfig, n: nat)
    requires ValidConfig(cfg) && 0 < n <= cfg.sequenceLength
    ensures DetectionsUpTo(cfg, n) == DetectionsUpTo(cfg, n - 1) + |ObjectsInFrame(cfg, n - 1)|
  {
    FrameOf(cfg, n - 1);
  }

  /** The filter chain runs the active filters, each at most once, in the
      fixed order min-score, class, duplicates. */
  lemma ObjectsInFrameIsFilterChain(cfg: TrackerConfig, frameId: nat)
    requires ValidConfig(cfg) && frameId < cfg.sequenceLength
    ensures ObjectsInFrame(cfg, frameId) == ApplyFilters(cfg, ActiveFilters(cfg), Source(cfg, frameId))
  {
    var a := if cfg.minScore != 0 then [MinScoreFilter] else [];
    var b := if |cfg.classes| > 0 then [ClassFilter] else [];
    var c := if cfg.avoidDuplicated then [DuplicateFilter] else [];
    var x0 := Source(cfg, frameId);
    ApplyFiltersAppend(cfg, a, b + c, x0);
    var x1 := ApplyFilters(cfg, a, x0);
    ApplyFiltersAppend(cfg, b, c, x1);
    var x2 := ApplyFilters(cfg, b, x1);
    assert a + b + c == a + (b + c);
    SingleFilter(cfg, a, x0);
    SingleFilter(cfg, b, x1);
    SingleFilter(cfg, c, x2);
  }

  lemma SingleFilter(cfg: TrackerConfig, kinds: seq<FilterKind>, objects: seq<Detection>)
    requires |kinds| <= 1
    ensures ApplyFilters(cfg, kinds, objects) == if kinds == [] then objects else ApplyFilter(cfg, kinds[0], objects)
  {
    if |kinds| == 1 {
      assert ApplyFilters(cfg, kinds[1..], ApplyFilter(cfg, kinds[0], objects)) == ApplyFilter(cfg, kinds[0], objects);
    }
  }

  lemma {:induction false} ApplyFiltersAppend(cfg: TrackerConfig, a: seq<FilterKind>, b: seq<FilterKind>, objects: seq<Detection>)
    ensures ApplyFilters(cfg, a + b, objects) == ApplyFilters(cfg, b, ApplyFilters(cfg, a, objects))
    decreases |a|
  {
    if a == [] {
      assert a + b == b;
    } else {
      assert (a + b)[0] == a[0] && (a + b)[1..] == a[1..] + b;
      ApplyFiltersAppend(cfg, a[1..], b, ApplyFilter(cfg, a[0], objects));
    }
  }

  /** One `(frame_id, obj)` entry of a history. */
  datatype FrameEntry = FrameEntry(frame: int, obj: Detection)

  /** The value of an `ObjectsRegistered`. */
  datatype Registry = Registry(
    nextUid: int,
    objects: seq<Detection>,
    objectsUid: seq<int>,
    lastFrame: seq<int>,
    history: seq<seq<FrameEntry>>,
    unregistered: seq<int>,
    framesToUnregister: int)
  {
    /** What the registry's operations maintain: the four lists have one entry
        per registered object, uid `i` sits at position `i`, the counter is the
        next position, each history is non-empty and ends with the object's
        current detection and last frame, and the unregistered uids are
        distinct registered uids. */
    predicate Inv()
    {
      && |objects| == |objectsUid| == |lastFrame| == |history| == nextUid
      && (forall i :: 0 <= i < |objectsUid| ==> objectsUid[i] == i)
      && (forall i :: 0 <= i < |history| ==>
            |history[i]| >= 1 && history[i][|history[i]| - 1] == FrameEntry(lastFrame[i], objects[i]))
      && NoDup(unregistered)
      && (forall k :: 0 <= k < |unregistered| ==> 0 <= unregistered[k] < nextUid)
    }

    /** `register_object` on the value. */
    function Registered(obj: Detection, frameId: int): (r: Registry)
    {
      this.(objects := objects + [obj],
            objectsUid := objectsUid + [nextUid],
            lastFrame := lastFrame + [frameId],
            history := history + [[FrameEntry(frameId, obj)]],
            nextUid := nextUid + 1)
    }

    /** The overwrite and append of `update_object` at position `k`. */
    function Updated(obj: Detection, k: nat, frameId: int): (r: Registry)
      requires Inv() && k < |objects|
      ensures r.Inv() && |r.objects| == |objects|
    {
      this.(objects := objects[k := obj],
            lastFrame := lastFrame[k := frameId],
            history := history[k := history[k] + [FrameEntry(frameId, obj)]])
    }

    /** `update_object` on the value: an unregistered uid fails the assertion;
        otherwise the uid is a Python index into the lists. */
    function Update(obj: Detection, uid: int, frameId: int): (r: Result<Registry>)
      requires Inv()
      ensures r == Err(AlreadyUnregistered(uid)) <==> uid in unregistered
      ensures uid !in unregistered && !(-(|objects| as int) <= uid < |objects|) ==> r == Err(IndexOutOfRange(uid))
      ensures r.Ok? <==> uid !in unregistered && -(|objects| as int) <= uid < |objects|
      ensures r.Ok? ==> r.value == Updated(obj, PyIndex(uid, |objects|).value, frameId)
      ensures r.Ok? ==> var k := PyIndex(uid, |objects|).value;
                        && r.value.Inv() && r.value.objects == objects[k := obj]
                        && r.value.lastFrame == lastFrame[k := frameId]
                        && r.value.history == history[k := history[k] + [FrameEntry(frameId, obj)]]
                        && r.value.objectsUid == objectsUid && r.value.unregistered == unregistered
                        && r.value.nextUid == nextUid
    {
      if uid in unregistered then Err(AlreadyUnregistered(uid))
      else match PyIndex(uid, |objects|)
        case None => Err(IndexOutOfRange(uid))
        case Some(k) => Ok(Updated(obj, k, frameId))
    }

    /** `objects_with_uid`: the `(uid, obj)` pairs in registration order,
        without the unregistered uids unless `includeUnregistered`. */
    function ObjectsWithUid(includeUnregistered: bool): (r: seq<(int, Detection)>)
    {
      ZipFiltered(objectsUid, objects, if includeUnregistered then [] else unregistered)
    }

    /** `unregister_dissapeared_objects` on the value. */
    function UnregisterDisappeared(frameId: int): (r: Registry)
    {
      this.(unregistered := Swept(objectsUid, lastFrame, unregistered, frameId, framesToUnregister,
                                  if |objectsUid| < |lastFrame| then |objectsUid| else |lastFrame|))
    }
  }

  /** Number of `(frame, obj)` entries over all histories. */
  function HistoryEntries(h: seq<seq<FrameEntry>>): nat
  {
    if h == [] then 0 else HistoryEntries(h[..|h| - 1]) + |h[|h| - 1]|
  }

  lemma HistoryEntriesSnoc(h: seq<seq<FrameEntry>>, x: seq<FrameEntry>)
    ensures HistoryEntries(h + [x]) == HistoryEntries(h) + |x|
  {
    assert (h + [x])[..|h|] == h;
  }

  /** Appending one entry to one history adds one entry in total. */
  lemma {:induction false} HistoryEntriesAppendAt(h: seq<seq<FrameEntry>>, k: nat, e: FrameEntry)
    requires k < |h|
    ensures HistoryEntries(h[k := h[k] + [e]]) == HistoryEntries(h) + 1
  {
    var n := |h| - 1;
    var h' := h[k := h[k] + [e]];
    assert h'[..n] == if k < n then h[..n][k := h[k] + [e]] else h[..n];
    if k < n {
      HistoryEntriesAppendAt(h[..n], k, e);
    }
  }

  function EmptyRegistry(framesToUnregister: int): (r: Registry)
    ensures r.Inv()
  {
    Registry(0, [], [], [], [], [], framesToUnregister)
  }

  /** `zip(uids, objs)` filtered to the uids not in `excluded`. */
  function ZipFiltered(uids: seq<int>, objs: seq<Detection>, excluded: seq<int>): (r: seq<(int, Detection)>)
    decreases |uids|
  {
    if |uids| == 0 || |objs| == 0 then []
    else if uids[0] in excluded then ZipFiltered(uids[1..], objs[1..], excluded)
    else [(uids[0], objs[0])] + ZipFiltered(uids[1..], objs[1..], excluded)
  }

  /** The eviction loop over the first `n` pairs of `zip(uids, lastFrames)`:
      a uid not yet in the (growing) unregistered list is appended when it
      has been missing for at least `threshold` frames. */
  function Swept(uids: seq<int>, lastFrames: seq<int>, unregistered: seq<int>, frameId: int, threshold: int, n: nat): (r: seq<int>)
    requires n <= |uids| && n <= |lastFrames|
  {
    if n == 0 then unregistered
    else
      var u := Swept(uids, lastFrames, unregistered, frameId, threshold, n - 1);
      if uids[n - 1] !in u && frameId - lastFrames[n - 1] >= threshold then u + [uids[n - 1]] else u
  }

  /** The sweep only appends: the earlier unregistered uids stay, in place,
      and each uid appears at most once. */
  lemma {:induction false} SweptExtends(uids: seq<int>, lastFrames: seq<int>, unregistered: seq<int>, frameId: int, threshold: int, n: nat)
    requires n <= |uids| && n <= |lastFrames|
    requires NoDup(unregistered)
    ensures var r := Swept(uids, lastFrames, unregistered, frameId, threshold, n);
            |r| >= |unregistered| && r[..|unregistered|] == unregistered && NoDup(r)
  {
    if n > 0 {
      SweptExtends(uids, lastFrames, unregistered, frameId, threshold, n - 1);
      var u := Swept(uids, lastFrames, unregistered, frameId, threshold, n - 1);
      if uids[n - 1] !in u && frameId - lastFrames[n - 1] >= threshold {
        assert (u + [uids[n - 1]])[..|unregistered|] == u[..|unregistered|];
      }
    }
  }

  /** With distinct uids, a uid ends up unregistered exactly when it already
      was or it has been missing for at least `threshold` frames (a
      non-strict comparison). */
  lemma {:induction false} SweptMembers(uids: seq<int>, lastFrames: seq<int>, unregistered: seq<int>, frameId: int, threshold: int, n: nat)
    requires n <= |uids| && n <= |lastFrames|
    requires NoDup(uids)
    ensures var r := Swept(uids, lastFrames, unregistered, frameId, threshold, n);
            && (forall k :: 0 <= k < n ==>
                  (uids[k] in r <==> uids[k] in unregistered || frameId - lastFrames[k] >= threshold))
            && (forall x :: x in r ==> x in unregistered || exists j :: 0 <= j < n && uids[j] == x)
            && (forall x :: x in unregistered ==> x in r)
  {
    if n > 0 {
      SweptMembers(uids, lastFrames, unregistered, frameId, threshold, n - 1);
      var r := Swept(uids, lastFrames, unregistered, frameId, threshold, n);
      forall k | 0 <= k < n
        ensures uids[k] in r <==> uids[k] in unregistered || frameId - lastFrames[k] >= threshold
      {
        var u := Swept(uids, lastFrames, unregistered, frameId, threshold, n - 1);
        if k < n - 1 {
          assert uids[k] != uids[n - 1];
        }
      }
      forall x | x in r
        ensures x in unregistered || exists j :: 0 <= j < n && uids[j] == x
      {
      }
    }
  }

  /** `objects_with_uid` under the invariant: the pairs `(i, objects[i])`, in
      increasing `i`, for exactly the uids not filtered out. */
  lemma ZipFilteredSpec(uids: seq<int>, objs: seq<Detection>, excluded: seq<int>, base: int)
    requires |uids| == |objs|
    requires forall i :: 0 <= i < |uids| ==> uids[i] == base + i
    ensures var r := ZipFiltered(uids, objs, excluded);
            && (forall k :: 0 <= k < |r| ==>
                  base <= r[k].0 < base + |uids| && r[k].0 !in excluded && r[k].1 == objs[r[k].0 - base])
            && (forall k, l :: 0 <= k < l < |r| ==> r[k].0 < r[l].0)
            && (forall i :: 0 <= i < |uids| && uids[i] !in excluded ==> exists k :: 0 <= k < |r| && r[k].0 == uids[i])
  {
    ZipFilteredSound(uids, objs, excluded, base);
    ZipFilteredSorted(uids, objs, excluded, base);
    ZipFilteredComplete(uids, objs, excluded, base);
  }

  /** Dropping the first pair: the rest still numbers its uids from
      `base + 1`, and the first pair leads the result unless filtered out. */
  lemma ZipFilteredCons(uids: seq<int>, objs: seq<Detection>, excluded: seq<int>, base: int)
    requires |uids| == |objs| && |uids| > 0
    requires forall i :: 0 <= i < |uids| ==> uids[i] == base + i
    ensures forall i :: 0 <= i < |uids[1..]| ==> uids[1..][i] == base + 1 + i
    ensures |objs[1..]| == |uids[1..]| && uids[0] == base
    ensures base in excluded ==> ZipFiltered(uids, objs, excluded) == ZipFiltered(uids[1..], objs[1..], excluded)
    ensures base !in excluded ==>
              ZipFiltered(uids, objs, excluded) == [(base, objs[0])] + ZipFiltered(uids[1..], objs[1..], excluded)
  {
  }

  /** Every pair is an unfiltered uid with its own detection. */
  lemma ZipFilteredSound(uids: seq<int>, objs: seq<Detection>, excluded: seq<int>, base: int)
    requires |uids| == |objs|
    requires forall i :: 0 <= i < |uids| ==> uids[i] == base + i
    ensures var r := ZipFiltered(uids, objs, excluded);
            forall k :: 0 <= k < |r| ==>
              base <= r[k].0 < base + |uids| && r[k].0 !in excluded && r[k].1 == objs[r[k].0 - base]
  {
    var r := ZipFiltered(uids, objs, excluded);
    forall k | 0 <= k < |r|
      ensures base <= r[k].0 < base + |uids| && r[k].0 !in excluded && r[k].1 == objs[r[k].0 - base]
    {
      ZipFilteredAt(uids, objs, excluded, base, k);
    }
  }

  /** Pair `k` of the result is an unfiltered uid with its own detection. */
  lemma {:induction false} ZipFilteredAt(uids: seq<int>, objs: seq<Detection>, excluded: seq<int>, base: int, k: nat)
    requires |uids| == |objs|
    requires forall i :: 0 <= i < |uids| ==> uids[i] == base + i
    requires k < |ZipFiltered(uids, objs, excluded)|
    ensures var p := ZipFiltered(uids, objs, excluded)[k];
            base <= p.0 < base + |uids| && p.0 !in excluded && p.1 == objs[p.0 - base]
    decreases |uids|
  {
    ZipFilteredCons(uids, objs, excluded, base);
    var rest := ZipFiltered(uids[1..], objs[1..], excluded);
    if base in excluded {
      ZipFilteredAt(uids[1..], objs[1..], excluded, base + 1, k);
      assert objs[1..][rest[k].0 - (base + 1)] == objs[rest[k].0 - base];
    } else if k > 0 {
      ZipFilteredAt(uids[1..], objs[1..], excluded, base + 1, k - 1);
      assert objs[1..][rest[k - 1].0 - (base + 1)] == objs[rest[k - 1].0 - base];
    }
  }

  /** The uids come out increasing. */
  lemma {:induction false} ZipFilteredSorted(uids: seq<int>, objs: seq<Detection>, excluded: seq<int>, base: int)
    requires |uids| == |objs|
    requires forall i :: 0 <= i < |uids| ==> uids[i] == base + i
    ensures var r := ZipFiltered(uids, objs, excluded);
            forall k, l :: 0 <= k < l < |r| ==> r[k].0 < r[l].0
    decreases |uids|
  {
    if |uids| > 0 {
      ZipFilteredCons(uids, objs, excluded, base);
      ZipFilteredSorted(uids[1..], objs[1..], excluded, base + 1);
      ZipFilteredSound(uids[1..], objs[1..], excluded, base + 1);
      if base !in excluded {
        PrependIncreasing((base, objs[0]), ZipFiltered(uids[1..], objs[1..], excluded));
      }
    }
  }

  lemma PrependIncreasing(p: (int, Detection), rest: seq<(int, Detection)>)
    requires forall l :: 0 <= l < |rest| ==> p.0 < rest[l].0
    requires forall k, l :: 0 <= k < l < |rest| ==> rest[k].0 < rest[l].0
    ensures var r := [p] + rest;
            forall k, l :: 0 <= k < l < |r| ==> r[k].0 < r[l].0
  {
    var r := [p] + rest;
    forall k, l | 0 <= k < l < |r|
      ensures r[k].0 < r[l].0
    {
      assert r[l] == rest[l - 1];
      if k > 0 {
        assert r[k] == rest[k - 1];
      }
    }
  }

  /** Every unfiltered uid is listed. */
  lemma {:induction false} ZipFilteredComplete(uids: seq<int>, objs: seq<Detection>, excluded: seq<int>, base: int)
    requires |uids| == |objs|
    requires forall i :: 0 <= i < |uids| ==> uids[i] == base + i
    ensures var r := ZipFiltered(uids, objs, excluded);
            forall i :: 0 <= i < |uids| && uids[i] !in excluded ==> exists k :: 0 <= k < |r| && r[k].0 == uids[i]
    decreases |uids|
  {
    if |uids| > 0 {
      ZipFilteredCons(uids, objs, excluded, base);
      ZipFilteredComplete(uids[1..], objs[1..], excluded, base + 1);
      var r := ZipFiltered(uids, objs, excluded);
      var rest := ZipFiltered(uids[1..], objs[1..], excluded);
      var d := if base in excluded then 0 else 1;
      forall i | 0 <= i < |uids| && uids[i] !in excluded
        ensures exists k :: 0 <= k < |r| && r[k].0 == uids[i]
      {
        if i == 0 {
          assert r[0].0 == uids[0];
        } else {
          assert uids[1..][i - 1] == uids[i];
          var k :| 0 <= k < |rest| && rest[k].0 == uids[i];
          assert r[k + d] == rest[k];
        }
      }
    }
  }

  /** The operations keep the invariant. */
  lemma RegisteredInv(reg: Registry, obj: Detection, frameId: int)
    requires reg.Inv()
    ensures reg.Registered(obj, frameId).Inv()
  {
    var r := reg.Registered(obj, frameId);
    forall i | 0 <= i < |r.history|
      ensures |r.history[i]| >= 1 && r.history[i][|r.history[i]| - 1] == FrameEntry(r.lastFrame[i], r.objects[i])
    {
      if i < |reg.history| {
        assert r.history[i] == reg.history[i];
      }
    }
  }

  lemma UnregisterDisappearedInv(reg: Registry, frameId: int)
    requires reg.Inv()
    ensures reg.UnregisterDisappeared(frameId).Inv()
  {
    var n := |reg.objectsUid|;
    SweptExtends(reg.objectsUid, reg.lastFrame, reg.unregistered, frameId, reg.framesToUnregister, n);
    assert NoDup(reg.objectsUid);
    SweptMembers(reg.objectsUid, reg.lastFrame, reg.unregistered, frameId, reg.framesToUnregister, n);
    var r := reg.UnregisterDisappeared(frameId);
    forall k | 0 <= k < |r.unregistered|
      ensures 0 <= r.unregistered[k] < r.nextUid
    {
      var x := r.unregistered[k];
      if x !in reg.unregistered {
        var j :| 0 <= j < n && reg.objectsUid[j] == x;
      }
    }
  }

  /** Eviction under the invariant: uid `i` is unregistered afterwards exactly
      when it already was or `frame - last_frame[i] >= frames_to_unregister`;
      the earlier unregistered uids stay in place and none appears twice. */
  lemma UnregisterDisappearedSpec(reg: Registry, frameId: int)
    requires reg.Inv()
    ensures var r := reg.UnregisterDisappeared(frameId);
            && r.Inv()
            && |r.unregistered| >= |reg.unregistered|
            && r.unregistered[..|reg.unregistered|] == reg.unregistered
            && r == reg.(unregistered := r.unregistered)
            && forall i :: 0 <= i < |reg.objects| ==>
                 (i in r.unregistered <==> i in reg.unregistered || frameId - reg.lastFrame[i] >= reg.framesToUnregister)
  {
    var n := |reg.objectsUid|;
    UnregisterDisappearedInv(reg, frameId);
    SweptExtends(reg.objectsUid, reg.lastFrame, reg.unregistered, frameId, reg.framesToUnregister, n);
    assert NoDup(reg.objectsUid);
    SweptMembers(reg.objectsUid, reg.lastFrame, reg.unregistered, frameId, reg.framesToUnregister, n);
  }

  /** The registry as the engine's loops see it. */
  class ObjectsRegistered {
    var nextUid: int
    var objects: seq<Detection>
    var objectsUid: seq<int>
    var lastFrame: seq<int>
    var history: seq<seq<FrameEntry>>
    var unregistered: seq<int>
    var framesToUnregister: int

    function Value(): Registry
      reads this
    {
      Registry(nextUid, objects, objectsUid, lastFrame, history, unregistered, framesToUnregister)
    }

    ghost predicate Valid()
      reads this
    {
      Value().Inv()
    }

    constructor (framesToUnregisterObject: int)
      ensures Valid() && Value() == EmptyRegistry(framesToUnregisterObject)
    {
      nextUid := 0;
      objects := [];
      objectsUid := [];
      lastFrame := [];
      history := [];
      unregistered := [];
      framesToUnregister := framesToUnregisterObject;
    }

    /** `register_object`: the four lists grow in lockstep, the new history
        is the single entry `(frame, obj)`, and the counter grows by one. */
    method RegisterObject(obj: Detection, frameId: int)
      requires Valid()
      modifies this
      ensures Valid()
      ensures Value() == old(Value()).Registered(obj, frameId)
    {
      RegisteredInv(Value(), obj, frameId);
      objects := objects + [obj];
      objectsUid := objectsUid + [nextUid];
      lastFrame := lastFrame + [frameId];
      history := history + [[FrameEntry(frameId, obj)]];
      nextUid := nextUid + 1;
    }

    /** `update_object`: fails for an unregistered uid; otherwise overwrites
        the object and the last frame and appends to the history, at the one
        position the uid indexes. */
    method UpdateObject(obj: Detection, objectUid: int, frameId: int) returns (r: Outcome)
      requires Valid()
      modifies this
      ensures Valid()
      ensures match old(Value()).Update(obj, objectUid, frameId)
              case Ok(v) => r == Pass && Value() == v
              case Err(e) => r == Fail(e) && Value() == old(Value())
    {
      if objectUid in unregistered {
        return Fail(AlreadyUnregistered(objectUid));
      }
      match PyIndex(objectUid, |objects|)
      case None =>
        r := Fail(IndexOutOfRange(objectUid));
      case Some(k) =>
        objects := objects[k := obj];
        lastFrame := lastFrame[k := frameId];
        history := history[k := history[k] + [FrameEntry(frameId, obj)]];
        r := Pass;
    }

    /** `unregister_dissapeared_objects`. */
    method UnregisterDisappearedObjects(frameId: int)
      requires Valid()
      modifies this
      ensures Valid()
      ensures Value() == old(Value()).UnregisterDisappeared(frameId)
    {
      var n := if |objectsUid| < |lastFrame| then |objectsUid| else |lastFrame|;
      var i := 0;
      while i < n
        invariant 0 <= i <= n
        invariant objectsUid == old(objectsUid) && lastFrame == old(lastFrame)
        invariant Value() == old(Value()).(unregistered := Swept(objectsUid, lastFrame, old(unregistered), frameId, framesToUnregister, i))
      {
        var objUid, last := objectsUid[i], lastFrame[i];
        if objUid !in unregistered {
          var framesElapsed := frameId - last;
          if framesElapsed >= framesToUnregister {
            unregistered := unregistered + [objUid];
          }
        }
        i := i + 1;
      }
      UnregisterDisappearedInv(old(Value()), frameId);
    }
  }
}
