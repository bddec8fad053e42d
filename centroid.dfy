/** `CentroidTracker`: the greedy single-pass matcher over the newer registry
    (`TrackedObjects`) and its frame loop: register every detection of the
    first frame, then per frame match against the registered objects, register
    the detections left over and evict the objects missing for too long. The
    functions say what one matching step decides and what one frame does to the
    values of the registry; the class runs the source's loops against a
    `TrackedObjects` instance. */
module Centroid {
  import opened Common
  import opened Datastructures
  import Tracker

  /** One committed match: the current detection and the id (not the list
      position) of the registered tuple it continues. */
  datatype Update = Update(obj: Detection, uid: int)

  /** What `_matching_step` adds: the registered positions and the current
      indices it appends to the two caller lists, and the `update_object` calls
      it makes, in order. */
  datatype Matching = Matching(regNew: seq<nat>, actNew: seq<nat>, updates: seq<Update>)

  /** The squared distances from every registered tuple to a current detection. */
  function Distances(reg: seq<TrackedObjectDetection>, c: Detection): (ds: seq<int>)
    ensures |ds| == |reg|
  {
    seq(|reg|, i requires 0 <= i < |reg| => Dist2(reg[i].obj.center, c.center))
  }

  /** The first of the first `n` registered positions at the smallest
      distance from `c`: a later position replaces the one kept so far only
      when it is strictly nearer. */
  function NearestUpTo(reg: seq<TrackedObjectDetection>, c: Detection, n: nat): (idx: nat)
    requires 0 < n <= |reg|
    ensures idx < n
  {
    if n == 1 then 0
    else
      var k := NearestUpTo(reg, c, n - 1);
      if Dist2(reg[n - 1].obj.center, c.center) < Dist2(reg[k].obj.center, c.center) then n - 1 else k
  }

  /** The registered position the loop of `_matching_step` picks for current
      detection `c`, whether or not it is already matched. */
  function NearestOf(reg: seq<TrackedObjectDetection>, c: Detection): (idx: nat)
    requires |reg| > 0
    ensures idx < |reg|
  {
    NearestUpTo(reg, c, |reg|)
  }

  /** The pick over a prefix is that prefix's first argmin. */
  lemma {:induction false} NearestUpToIsArgMin(reg: seq<TrackedObjectDetection>, c: Detection, n: nat)
    requires 0 < n <= |reg|
    ensures NearestUpTo(reg, c, n) == ArgMin(Distances(reg, c)[..n])
  {
    var ds := Distances(reg, c);
    if n > 1 {
      NearestUpToIsArgMin(reg, c, n - 1);
      assert ds[..n][..n - 1] == ds[..n - 1];
    }
  }

  /** The pick is `distances.index(min(distances))` and `np.argmin(distances)`:
      no position is nearer, and every position before it is strictly
      farther. */
  lemma NearestIsFirstMinimum(reg: seq<TrackedObjectDetection>, c: Detection)
    requires |reg| > 0
    ensures NearestOf(reg, c) == IndexOf(Distances(reg, c), MinOf(Distances(reg, c)))
    ensures NearestOf(reg, c) == ArgMin(Distances(reg, c))
    ensures forall i :: 0 <= i < |reg| ==> Distances(reg, c)[NearestOf(reg, c)] <= Distances(reg, c)[i]
    ensures forall i :: 0 <= i < NearestOf(reg, c) ==> Distances(reg, c)[NearestOf(reg, c)] < Distances(reg, c)[i]
  {
    var ds := Distances(reg, c);
    NearestUpToIsArgMin(reg, c, |reg|);
    assert ds[..|reg|] == ds;
    IndexOfMinIsArgMin(ds);
  }

  /** `min_distance <= max_distance_allowed` for current detection `c`, read
      at the picked position. */
  predicate Close(reg: seq<TrackedObjectDetection>, c: Detection, maxDistance: int)
    requires |reg| > 0
  {
    Within(Dist2(reg[NearestOf(reg, c)].obj.center, c.center), maxDistance)
  }

  /** The range test is the source's test of the minimum distance. */
  lemma CloseIsMinimumWithin(reg: seq<TrackedObjectDetection>, c: Detection, maxDistance: int)
    requires |reg| > 0
    ensures Close(reg, c, maxDistance) <==> Within(MinOf(Distances(reg, c)), maxDistance)
  {
    NearestIsFirstMinimum(reg, c);
  }

  /** `min_distance <= max_distance_allowed`, on the squared distance. */
  predicate Within(d2: int, maxDistance: int)
  {
    0 <= maxDistance && d2 <= maxDistance * maxDistance
  }

  /** For a Euclidean distance `d` whose square is `d2`, comparing `d2` with
      the squared bound accepts exactly the distances the source's non-strict
      `min_distance <= max_distance_allowed` accepts; a negative bound accepts
      none. */
  lemma WithinExact(d: real, d2: nat, maxDistance: int)
    requires 0.0 <= d && d * d == d2 as real
    ensures Within(d2, maxDistance) <==> d <= maxDistance as real
  {
    if 0 <= maxDistance {
      var m := maxDistance as real;
      SquareLe(d, m);
      assert (maxDistance * maxDistance) as real == m * m;
    }
  }

  /** What the loop of `_matching_step` computes for one current detection
      before it decides: the nearest registered position and whether the
      minimum distance is within range. */
  datatype Candidate = Candidate(idx: nat, uid: int, close: bool)

  function CandidateOf(reg: seq<TrackedObjectDetection>, c: Detection, maxDistance: int): Candidate
    requires |reg| > 0
  {
    var idx := NearestOf(reg, c);
    Candidate(idx, reg[idx].id, Close(reg, c, maxDistance))
  }

  /** The candidates of all current detections, in order. */
  function Candidates(reg: seq<TrackedObjectDetection>, actual: seq<Detection>, maxDistance: int): (cs: seq<Candidate>)
    requires |reg| > 0
    ensures |cs| == |actual|
    decreases |actual|
  {
    if |actual| == 0 then []
    else Candidates(reg, actual[..|actual| - 1], maxDistance) + [CandidateOf(reg, actual[|actual| - 1], maxDistance)]
  }

  lemma {:induction false} CandidatesAt(reg: seq<TrackedObjectDetection>, actual: seq<Detection>, maxDistance: int, j: nat)
    requires |reg| > 0 && j < |actual|
    ensures Candidates(reg, actual, maxDistance)[j] == CandidateOf(reg, actual[j], maxDistance)
    decreases |actual|
  {
    var n := |actual| - 1;
    if j < n {
      CandidatesAt(reg, actual[..n], maxDistance, j);
    }
  }

  /** Every candidate names a registered position and the id stored there. */
  lemma CandidatesSpec(reg: seq<TrackedObjectDetection>, actual: seq<Detection>, maxDistance: int)
    requires |reg| > 0
    ensures CandidatesFor(Candidates(reg, actual, maxDistance), reg, |actual|)
  {
    forall j | 0 <= j < |actual|
      ensures Candidates(reg, actual, maxDistance)[j] == CandidateOf(reg, actual[j], maxDistance)
    {
      CandidatesAt(reg, actual, maxDistance, j);
    }
  }

  /** One candidate per current detection, each naming a registered position. */
  predicate CandidatesFor(cs: seq<Candidate>, reg: seq<TrackedObjectDetection>, current: nat)
  {
    |cs| == current && forall j :: 0 <= j < |cs| ==> cs[j].idx < |reg| && cs[j].uid == reg[cs[j].idx].id
  }

  /** One iteration of the loop of `_matching_step`, for current detection
      `j`: pair it with its nearest registered position when that position is
      not in the caller's list yet and the minimum distance is within range. */
  function Step(actual: seq<Detection>, cs: seq<Candidate>, r0: seq<nat>, j: nat, m: Matching): Matching
    requires |cs| == |actual| && j < |actual|
  {
    var c := cs[j];
    if c.idx !in r0 + m.regNew && c.close then
      Matching(m.regNew + [c.idx], m.actNew + [j], m.updates + [Update(actual[j], c.uid)])
    else m
  }

  /** The matching step over the first `n` current detections, with `r0` the
      registered positions the caller's list already holds. */
  function GreedyUpTo(actual: seq<Detection>, cs: seq<Candidate>, r0: seq<nat>, n: nat): (m: Matching)
    requires |cs| == |actual| && n <= |actual|
  {
    if n == 0 then Matching([], [], [])
    else Step(actual, cs, r0, n - 1, GreedyUpTo(actual, cs, r0, n - 1))
  }

  /** `_matching_step`: nothing when either list is empty, otherwise one pass
      over the current detections. */
  function MatchingOf(reg: seq<TrackedObjectDetection>, actual: seq<Detection>, maxDistance: int, r0: seq<nat>): Matching
  {
    if |reg| == 0 || |actual| == 0 then Matching([], [], [])
    else GreedyUpTo(actual, Candidates(reg, actual, maxDistance), r0, |actual|)
  }

  /** Each match made over the first `n` current detections pairs a current
      index with its candidate position, which was not in the caller's list
      and was within range, and updates the candidate's id. */
  ghost predicate Paired(actual: seq<Detection>, cs: seq<Candidate>, r0: seq<nat>, n: nat, m: Matching)
    requires |cs| == |actual| && n <= |actual|
  {
    && |m.regNew| == |m.updates| && |m.actNew| == |m.updates|
    && (forall k :: 0 <= k < |m.updates| ==>
          && m.actNew[k] < n
          && m.regNew[k] == cs[m.actNew[k]].idx
          && m.regNew[k] !in r0
          && cs[m.actNew[k]].close
          && m.updates[k] == Update(actual[m.actNew[k]], cs[m.actNew[k]].uid))
  }

  /** The current indices come in increasing order and no registered position
      is taken twice. */
  ghost predicate OneToOne(m: Matching)
  {
    && (forall k, l :: 0 <= k < l < |m.actNew| ==> m.actNew[k] < m.actNew[l])
    && NoDup(m.regNew)
  }

  /** A current detection left unmatched had its candidate position taken or
      out of range: there is no fallback to the next nearest. */
  ghost predicate NoFallbackLeft(cs: seq<Candidate>, r0: seq<nat>, n: nat, m: Matching)
    requires n <= |cs|
  {
    forall j :: 0 <= j < n && j !in m.actNew ==> cs[j].idx in r0 || cs[j].idx in m.regNew || !cs[j].close
  }

  /** What the step has decided after the first `n` current detections. */
  ghost predicate GreedyFacts(actual: seq<Detection>, cs: seq<Candidate>, r0: seq<nat>, n: nat, m: Matching)
    requires |cs| == |actual| && n <= |actual|
  {
    Paired(actual, cs, r0, n, m) && OneToOne(m) && NoFallbackLeft(cs, r0, n, m)
  }

  lemma StepPaired(actual: seq<Detection>, cs: seq<Candidate>, r0: seq<nat>, n: nat, m: Matching)
    requires |cs| == |actual| && 0 < n <= |actual| && Paired(actual, cs, r0, n - 1, m)
    ensures Paired(actual, cs, r0, n, Step(actual, cs, r0, n - 1, m))
  {
  }

  lemma StepOneToOne(actual: seq<Detection>, cs: seq<Candidate>, r0: seq<nat>, n: nat, m: Matching)
    requires |cs| == |actual| && 0 < n <= |actual| && Paired(actual, cs, r0, n - 1, m) && OneToOne(m)
    ensures OneToOne(Step(actual, cs, r0, n - 1, m))
  {
    var s := Step(actual, cs, r0, n - 1, m);
    if s != m {
      assert cs[n - 1].idx !in m.regNew;
      assert s.regNew == m.regNew + [cs[n - 1].idx];
    }
  }

  lemma StepNoFallback(actual: seq<Detection>, cs: seq<Candidate>, r0: seq<nat>, n: nat, m: Matching)
    requires |cs| == |actual| && 0 < n <= |actual| && NoFallbackLeft(cs, r0, n - 1, m)
    ensures NoFallbackLeft(cs, r0, n, Step(actual, cs, r0, n - 1, m))
  {
    var s := Step(actual, cs, r0, n - 1, m);
    forall i | 0 <= i < n && i !in s.actNew
      ensures cs[i].idx in r0 || cs[i].idx in s.regNew || !cs[i].close
    {
      if s != m {
        assert i !in m.actNew;
        if cs[i].idx in m.regNew {
          var k :| 0 <= k < |m.regNew| && m.regNew[k] == cs[i].idx;
          assert s.regNew[k] == m.regNew[k];
        }
      }
    }
  }

  lemma {:induction false} GreedyUpToSpec(actual: seq<Detection>, cs: seq<Candidate>, r0: seq<nat>, n: nat)
    requires |cs| == |actual| && n <= |actual|
    ensures GreedyFacts(actual, cs, r0, n, GreedyUpTo(actual, cs, r0, n))
  {
    if n > 0 {
      GreedyUpToSpec(actual, cs, r0, n - 1);
      var front := GreedyUpTo(actual, cs, r0, n - 1);
      StepPaired(actual, cs, r0, n, front);
      StepOneToOne(actual, cs, r0, n, front);
      StepNoFallback(actual, cs, r0, n, front);
    }
  }

  /** The matching step, whole: no match when either list is empty; otherwise
      the facts above, over the candidates of all current detections; and the
      lists it leaves are one-to-one, the registered list staying
      duplicate-free when it was. */
  lemma MatchingOfSpec(reg: seq<TrackedObjectDetection>, actual: seq<Detection>, maxDistance: int, r0: seq<nat>)
    ensures var m := MatchingOf(reg, actual, maxDistance, r0);
            && (|reg| == 0 || |actual| == 0 ==> m == Matching([], [], []))
            && (|reg| > 0 ==> GreedyFacts(actual, Candidates(reg, actual, maxDistance), r0, |actual|, m))
            && (forall k :: 0 <= k < |m.updates| ==>
                  m.regNew[k] < |reg| && m.updates[k] == Update(actual[m.actNew[k]], reg[m.regNew[k]].id))
            && |m.regNew| == |m.actNew| == |m.updates|
            && NoDup(m.actNew)
            && (forall k :: 0 <= k < |m.actNew| ==> m.actNew[k] < |actual|)
            && (NoDup(r0) ==> NoDup(r0 + m.regNew))
  {
    var m := MatchingOf(reg, actual, maxDistance, r0);
    if |reg| > 0 {
      var cs := Candidates(reg, actual, maxDistance);
      GreedyUpToSpec(actual, cs, r0, |actual|);
      CandidatesSpec(reg, actual, maxDistance);
      if NoDup(r0) {
        var s := r0 + m.regNew;
        forall i, j | 0 <= i < j < |s|
          ensures s[i] != s[j]
        {
          if j >= |r0| {
            assert s[j] == m.regNew[j - |r0|];
            if i < |r0| {
              assert s[i] in r0;
            }
          }
        }
      }
    }
  }

  /** No fallback: the second detection's nearest object is taken by the
      first, so it stays unmatched although the other registered object is
      within range. */
  lemma NoFallback()
    ensures var a := Detection(Point(1, 0), 0, "");
            var b := Detection(Point(2, 0), 0, "");
            var reg := [TrackedObjectDetection(0, 0, Detection(Point(0, 0), 0, "")),
                        TrackedObjectDetection(1, 0, Detection(Point(10, 0), 0, ""))];
            && Within(Dist2(reg[1].obj.center, b.center), 20)
            && MatchingOf(reg, [a, b], 20, []) == Matching([0], [0], [Update(a, 0)])
  {
    var a := Detection(Point(1, 0), 0, "");
    var b := Detection(Point(2, 0), 0, "");
    var reg := [TrackedObjectDetection(0, 0, Detection(Point(0, 0), 0, "")),
                TrackedObjectDetection(1, 0, Detection(Point(10, 0), 0, ""))];
    assert NearestOf(reg, a) == 0 && Close(reg, a, 20);
    assert NearestOf(reg, b) == 0 && Close(reg, b, 20);
    var cs := Candidates(reg, [a, b], 20);
    CandidatesAt(reg, [a, b], 20, 0);
    CandidatesAt(reg, [a, b], 20, 1);
    assert cs == [Candidate(0, 0, true), Candidate(0, 0, true)];
    assert GreedyUpTo([a, b], cs, [], 1) == Matching([0], [0], [Update(a, 0)]);
  }

  /** One iteration adds at most one update, at the end. */
  lemma StepExtends(actual: seq<Detection>, cs: seq<Candidate>, r0: seq<nat>, n: nat, m: Matching)
    requires |cs| == |actual| && 0 < n <= |actual|
    ensures |m.updates| <= |Step(actual, cs, r0, n - 1, m).updates| <= |m.updates| + 1
    ensures Step(actual, cs, r0, n - 1, m).updates[..|m.updates|] == m.updates
  {
  }

  /** A detection whose candidate is taken or out of range adds nothing. */
  lemma GreedySkip(actual: seq<Detection>, cs: seq<Candidate>, r0: seq<nat>, n: nat)
    requires |cs| == |actual| && n < |actual|
    requires !(cs[n].idx !in r0 + GreedyUpTo(actual, cs, r0, n).regNew && cs[n].close)
    ensures GreedyUpTo(actual, cs, r0, n + 1) == GreedyUpTo(actual, cs, r0, n)
  {
  }

  /** A detection whose candidate is free and in range adds one match, and
      its update is applied after the earlier ones. */
  lemma GreedyMatch(ts0: seq<TrackState>, actual: seq<Detection>, cs: seq<Candidate>, r0: seq<nat>, n: nat,
                    frame: int, ts: seq<TrackState>)
    requires |cs| == |actual| && n < |actual|
    requires cs[n].idx !in r0 + GreedyUpTo(actual, cs, r0, n).regNew && cs[n].close
    requires ApplyUpdates(ts0, GreedyUpTo(actual, cs, r0, n).updates, frame) == Ok(ts)
    ensures var g := GreedyUpTo(actual, cs, r0, n);
            GreedyUpTo(actual, cs, r0, n + 1)
            == Matching(g.regNew + [cs[n].idx], g.actNew + [n], g.updates + [Update(actual[n], cs[n].uid)])
    ensures ApplyUpdates(ts0, GreedyUpTo(actual, cs, r0, n + 1).updates, frame) == UpdateTracks(ts, cs[n].uid, frame, actual[n])
  {
    var g := GreedyUpTo(actual, cs, r0, n);
    ApplyUpdatesSnoc(ts0, g.updates, Update(actual[n], cs[n].uid), frame);
  }

  /** A growing prefix of the current detections only extends the updates. */
  lemma {:induction false} GreedyPrefix(actual: seq<Detection>, cs: seq<Candidate>, r0: seq<nat>, j: nat, n: nat)
    requires |cs| == |actual| && j <= n <= |actual|
    ensures |GreedyUpTo(actual, cs, r0, j).updates| <= |GreedyUpTo(actual, cs, r0, n).updates|
    ensures GreedyUpTo(actual, cs, r0, n).updates[..|GreedyUpTo(actual, cs, r0, j).updates|]
         == GreedyUpTo(actual, cs, r0, j).updates
    decreases n
  {
    if j < n {
      GreedyPrefix(actual, cs, r0, j, n - 1);
      var uj := GreedyUpTo(actual, cs, r0, j).updates;
      var prev := GreedyUpTo(actual, cs, r0, n - 1);
      var un := GreedyUpTo(actual, cs, r0, n).updates;
      StepExtends(actual, cs, r0, n, prev);
      assert un[..|uj|] == un[..|prev.updates|][..|uj|];
    }
  }

  /** The `update_object` calls of a step, one after the other; the first one
      that raises ends the step with its exception. */
  function ApplyUpdates(ts: seq<TrackState>, us: seq<Update>, frame: int): Result<seq<TrackState>>
    decreases |us|
  {
    if us == [] then Ok(ts)
    else match ApplyUpdates(ts, us[..|us| - 1], frame)
      case Err(e) => Err(e)
      case Ok(front) => UpdateTracks(front, us[|us| - 1].uid, frame, us[|us| - 1].obj)
  }

  /** Once a call has raised, the calls after it never run. */
  lemma {:induction false} ApplyUpdatesStops(ts: seq<TrackState>, us: seq<Update>, k: nat, frame: int)
    requires k <= |us| && ApplyUpdates(ts, us[..k], frame).Err?
    ensures ApplyUpdates(ts, us, frame) == ApplyUpdates(ts, us[..k], frame)
    decreases |us|
  {
    if k < |us| {
      var front := us[..|us| - 1];
      assert front[..k] == us[..k];
      ApplyUpdatesStops(ts, front, k, frame);
    } else {
      assert us[..k] == us;
    }
  }

  /** The updates target distinct objects of the registry. */
  ghost predicate DistinctTargets(ts: seq<TrackState>, us: seq<Update>)
  {
    && (forall k :: 0 <= k < |us| ==> 0 <= us[k].uid < |ts|)
    && (forall k, l :: 0 <= k < l < |us| ==> us[k].uid != us[l].uid)
  }

  /** Each update target got exactly its one entry and every other object is
      as it was. */
  ghost predicate AppliedOnce(ts: seq<TrackState>, us: seq<Update>, frame: int, r: seq<TrackState>)
  {
    && |r| == |ts|
    && (forall k :: 0 <= k < |us| ==>
          0 <= us[k].uid < |ts| && r[us[k].uid] == ts[us[k].uid].Appended(frame, us[k].obj))
    && (forall i :: 0 <= i < |ts| && (forall k :: 0 <= k < |us| ==> us[k].uid != i) ==> r[i] == ts[i])
  }

  /** With distinct target ids that all index the registry, no call raises:
      each target's history grows by its one entry, nothing else changes, and
      the histories hold `|us|` entries more. */
  lemma {:induction false} ApplyUpdatesSpec(ts: seq<TrackState>, us: seq<Update>, frame: int)
    requires DistinctTargets(ts, us)
    ensures ApplyUpdates(ts, us, frame).Ok?
    ensures AppliedOnce(ts, us, frame, ApplyUpdates(ts, us, frame).value)
    ensures Entries(ApplyUpdates(ts, us, frame).value) == Entries(ts) + |us|
    decreases |us|
  {
    if us == [] {
      assert ApplyUpdates(ts, us, frame) == Ok(ts);
    } else {
      var n := |us| - 1;
      var front := us[..n];
      var u := us[n];
      assert us == front + [u];
      ApplyUpdatesSpec(ts, front, frame);
      var f := ApplyUpdates(ts, front, frame).value;
      ApplyUpdatesSnoc(ts, front, u, frame);
      AppliedOnceStep(ts, front, u, frame, f);
      EntriesAppendAt(f, u.uid, frame, u.obj);
    }
  }

  lemma AppliedOnceStep(ts: seq<TrackState>, us: seq<Update>, u: Update, frame: int, f: seq<TrackState>)
    requires AppliedOnce(ts, us, frame, f)
    requires 0 <= u.uid < |ts|
    requires forall k :: 0 <= k < |us| ==> us[k].uid != u.uid
    ensures AppliedOnce(ts, us + [u], frame, f[u.uid := f[u.uid].Appended(frame, u.obj)])
  {
    var r := f[u.uid := f[u.uid].Appended(frame, u.obj)];
    var s := us + [u];
    assert f[u.uid] == ts[u.uid];
    forall i | 0 <= i < |ts| && (forall k :: 0 <= k < |s| ==> s[k].uid != i)
      ensures r[i] == ts[i]
    {
      assert s[|us|].uid != i;
      assert forall k :: 0 <= k < |us| ==> us[k].uid == s[k].uid;
    }
    forall k | 0 <= k < |s|
      ensures 0 <= s[k].uid < |ts| && r[s[k].uid] == ts[s[k].uid].Appended(frame, s[k].obj)
    {
      if k < |us| {
        assert s[k] == us[k];
      }
    }
  }

  /** An update only appends to one history, so well-formedness and dense ids
      survive it. */
  lemma AppliedOnceKeeps(ts: seq<TrackState>, us: seq<Update>, frame: int, r: seq<TrackState>)
    requires AppliedOnce(ts, us, frame, r)
    ensures AllWellFormed(ts) ==> AllWellFormed(r)
    ensures DenseIds(ts) ==> DenseIds(r)
  {
    forall i | 0 <= i < |ts|
      ensures r[i].id == ts[i].id
      ensures ts[i].WellFormed() ==> r[i].WellFormed()
    {
      if exists k :: 0 <= k < |us| && us[k].uid == i {
        var k :| 0 <= k < |us| && us[k].uid == i;
        assert r[i] == ts[i].Appended(frame, us[k].obj);
      }
    }
  }

  /** Appending one entry to one object adds one to the total. */
  lemma {:induction false} EntriesAppendAt(ts: seq<TrackState>, k: nat, frame: int, obj: Detection)
    requires k < |ts|
    ensures Entries(ts[k := ts[k].Appended(frame, obj)]) == Entries(ts) + 1
    decreases |ts|
  {
    var r := ts[k := ts[k].Appended(frame, obj)];
    var n := |ts| - 1;
    if k < n {
      EntriesAppendAt(ts[..n], k, frame, obj);
      assert r[..n] == ts[..n][k := ts[k].Appended(frame, obj)];
    } else {
      assert r[..n] == ts[..n];
    }
  }

  /** Eviction only clears statuses, so the entry total is unchanged. */
  lemma {:induction false} EntriesUnregistered(ts: seq<TrackState>, frame: int, maxFramesMissing: int)
    requires AllWellFormed(ts)
    ensures Entries(Unregistered(ts, frame, maxFramesMissing)) == Entries(ts)
    decreases |ts|
  {
    if ts != [] {
      var n := |ts| - 1;
      EntriesUnregistered(ts[..n], frame, maxFramesMissing);
      assert Unregistered(ts, frame, maxFramesMissing)[..n] == Unregistered(ts[..n], frame, maxFramesMissing);
    }
  }

  /** `register_object` on each of `objs` in turn, with ids equal to positions:
      object `|ts| + k` is the fresh object for `objs[k]`. */
  function FreshRun(ts: seq<TrackState>, objs: seq<Detection>, frame: int): (r: seq<TrackState>)
    ensures |r| == |ts| + |objs|
    decreases |objs|
  {
    if objs == [] then ts
    else FreshRun(ts, objs[..|objs| - 1], frame) + [Fresh(|ts| + |objs| - 1, frame, objs[|objs| - 1])]
  }

  lemma FreshRunSnoc(ts: seq<TrackState>, objs: seq<Detection>, obj: Detection, frame: int)
    ensures FreshRun(ts, objs + [obj], frame) == FreshRun(ts, objs, frame) + [Fresh(|ts| + |objs|, frame, obj)]
  {
    assert (objs + [obj])[..|objs|] == objs;
  }

  /** Registration keeps what was there and puts the fresh object for
      `objs[k]` at position `|ts| + k`. */
  lemma {:induction false} FreshRunKeeps(ts: seq<TrackState>, objs: seq<Detection>, frame: int)
    ensures FreshRun(ts, objs, frame)[..|ts|] == ts
    ensures forall k :: 0 <= k < |objs| ==> FreshRun(ts, objs, frame)[|ts| + k] == Fresh(|ts| + k, frame, objs[k])
    decreases |objs|
  {
    if objs != [] {
      var n := |objs| - 1;
      FreshRunKeeps(ts, objs[..n], frame);
      var p := FreshRun(ts, objs[..n], frame);
      var r := FreshRun(ts, objs, frame);
      assert r == p + [Fresh(|ts| + n, frame, objs[n])];
      assert r[..|ts|] == p[..|ts|];
      forall k | 0 <= k < |objs|
        ensures r[|ts| + k] == Fresh(|ts| + k, frame, objs[k])
      {
        if k < n {
          assert objs[..n][k] == objs[k];
        }
      }
    }
  }

  /** Registration keeps histories well formed and ids dense. */
  lemma FreshRunWellFormed(ts: seq<TrackState>, objs: seq<Detection>, frame: int)
    ensures AllWellFormed(ts) ==> AllWellFormed(FreshRun(ts, objs, frame))
    ensures DenseIds(ts) ==> DenseIds(FreshRun(ts, objs, frame))
  {
    FreshRunKeeps(ts, objs, frame);
    var r := FreshRun(ts, objs, frame);
    forall i | |ts| <= i < |r|
      ensures r[i] == Fresh(i, frame, objs[i - |ts|])
    {
      assert r[|ts| + (i - |ts|)] == Fresh(|ts| + (i - |ts|), frame, objs[i - |ts|]);
    }
    forall i | 0 <= i < |ts|
      ensures r[i] == ts[i]
    {
      assert r[..|ts|][i] == r[i];
    }
  }

  /** Registration adds one history entry per detection. */
  lemma {:induction false} FreshRunEntries(ts: seq<TrackState>, objs: seq<Detection>, frame: int)
    ensures Entries(FreshRun(ts, objs, frame)) == Entries(ts) + |objs|
    decreases |objs|
  {
    if objs != [] {
      var n := |objs| - 1;
      FreshRunEntries(ts, objs[..n], frame);
      EntriesSnoc(FreshRun(ts, objs[..n], frame), Fresh(|ts| + n, frame, objs[n]));
    }
  }

  lemma EntriesSnoc(ts: seq<TrackState>, t: TrackState)
    ensures Entries(ts + [t]) == Entries(ts) + |t.detections|
  {
    assert (ts + [t])[..|ts|] == ts;
  }

  /** Matched against `registered_objects()` of a registry with dense ids,
      the step's updates target distinct registered objects. */
  lemma MatchTargetsDistinct(ts: seq<TrackState>, actual: seq<Detection>, maxDistance: int)
    requires AllWellFormed(ts) && DenseIds(ts)
    ensures DistinctTargets(ts, MatchingOf(RegisteredOf(ts), actual, maxDistance, []).updates)
  {
    var reg := RegisteredOf(ts);
    var m := MatchingOf(reg, actual, maxDistance, []);
    RegisteredOfSpec(ts);
    MatchingOfSpec(reg, actual, maxDistance, []);
    if |reg| > 0 {
      forall k, l | 0 <= k < l < |m.updates|
        ensures m.updates[k].uid != m.updates[l].uid
      {
        var i, j := m.regNew[k], m.regNew[l];
        assert m.updates[k] == Update(actual[m.actNew[k]], reg[i].id);
        assert m.updates[l] == Update(actual[m.actNew[l]], reg[j].id);
        assert i != j;
        if i < j {
          assert reg[i].id < reg[j].id;
        } else {
          assert reg[j].id < reg[i].id;
        }
      }
    }
  }

  /** Hence `update_object` never raises inside the frame loop: the updates
      all land, add one history entry each, and keep the registry well formed
      with dense ids. */
  lemma MatchUpdatesLand(ts: seq<TrackState>, actual: seq<Detection>, maxDistance: int, frame: int)
    requires AllWellFormed(ts) && DenseIds(ts)
    ensures var us := MatchingOf(RegisteredOf(ts), actual, maxDistance, []).updates;
            && ApplyUpdates(ts, us, frame).Ok?
            && |ApplyUpdates(ts, us, frame).value| == |ts|
            && Entries(ApplyUpdates(ts, us, frame).value) == Entries(ts) + |us|
            && AllWellFormed(ApplyUpdates(ts, us, frame).value)
            && DenseIds(ApplyUpdates(ts, us, frame).value)
  {
    var us := MatchingOf(RegisteredOf(ts), actual, maxDistance, []).updates;
    MatchTargetsDistinct(ts, actual, maxDistance);
    ApplyUpdatesSpec(ts, us, frame);
    AppliedOnceKeeps(ts, us, frame, ApplyUpdates(ts, us, frame).value);
  }

  /** The current indices a step matches are distinct positions of the
      current list, one per update. */
  lemma MatchedIndices(reg: seq<TrackedObjectDetection>, actual: seq<Detection>, maxDistance: int, r0: seq<nat>)
    ensures var m := MatchingOf(reg, actual, maxDistance, r0);
            && |m.actNew| == |m.updates|
            && NoDup(m.actNew)
            && forall k :: 0 <= k < |m.actNew| ==> m.actNew[k] < |actual|
  {
    MatchingOfSpec(reg, actual, maxDistance, r0);
  }

  /** What the frame function needs to be defined: the matched updates all
      land, and the registrations that follow keep every history non-empty. */
  lemma FrameLands(ts: seq<TrackState>, actual: seq<Detection>, maxDistance: int, frame: int)
    requires AllWellFormed(ts) && DenseIds(ts)
    ensures var m := MatchingOf(RegisteredOf(ts), actual, maxDistance, []);
            && ApplyUpdates(ts, m.updates, frame).Ok?
            && AllWellFormed(FreshRun(ApplyUpdates(ts, m.updates, frame).value, Unmatched(actual, m.actNew, |actual|), frame))
  {
    var m := MatchingOf(RegisteredOf(ts), actual, maxDistance, []);
    MatchUpdatesLand(ts, actual, maxDistance, frame);
    FreshRunWellFormed(ApplyUpdates(ts, m.updates, frame).value, Unmatched(actual, m.actNew, |actual|), frame);
  }

  /** One iteration of the frame loop of `_algorithm`: match against the
      registered objects, register the unmatched detections at this frame,
      then evict. */
  function CentroidFrame(ts: seq<TrackState>, frame: int, actual: seq<Detection>, maxDistance: int, maxFramesMissing: int): seq<TrackState>
    requires AllWellFormed(ts) && DenseIds(ts)
  {
    var m := MatchingOf(RegisteredOf(ts), actual, maxDistance, []);
    FrameLands(ts, actual, maxDistance, frame);
    Unregistered(FreshRun(ApplyUpdates(ts, m.updates, frame).value, Unmatched(actual, m.actNew, |actual|), frame),
                 frame, maxFramesMissing)
  }

  /** A frame keeps the registry well formed with ids equal to positions. */
  lemma CentroidFrameKeeps(ts: seq<TrackState>, frame: int, actual: seq<Detection>, maxDistance: int, maxFramesMissing: int)
    requires AllWellFormed(ts) && DenseIds(ts)
    ensures AllWellFormed(CentroidFrame(ts, frame, actual, maxDistance, maxFramesMissing))
    ensures DenseIds(CentroidFrame(ts, frame, actual, maxDistance, maxFramesMissing))
  {
    var m := MatchingOf(RegisteredOf(ts), actual, maxDistance, []);
    MatchUpdatesLand(ts, actual, maxDistance, frame);
    var updated := ApplyUpdates(ts, m.updates, frame).value;
    var registered := FreshRun(updated, Unmatched(actual, m.actNew, |actual|), frame);
    FreshRunWellFormed(updated, Unmatched(actual, m.actNew, |actual|), frame);
    UnregisteredSpec(registered, frame, maxFramesMissing);
    assert CentroidFrame(ts, frame, actual, maxDistance, maxFramesMissing) == Unregistered(registered, frame, maxFramesMissing);
  }

  /** Every current detection is either matched (one more entry in an
      existing history) or registered as a new object: a frame adds exactly
      `|actual|` history entries, and as many objects as detections went
      unmatched. */
  lemma CentroidFrameEntries(ts: seq<TrackState>, frame: int, actual: seq<Detection>, maxDistance: int, maxFramesMissing: int)
    requires AllWellFormed(ts) && DenseIds(ts)
    ensures var m := MatchingOf(RegisteredOf(ts), actual, maxDistance, []);
            && Entries(CentroidFrame(ts, frame, actual, maxDistance, maxFramesMissing)) == Entries(ts) + |actual|
            && |CentroidFrame(ts, frame, actual, maxDistance, maxFramesMissing)| == |ts| + |actual| - |m.actNew|
  {
    var m := MatchingOf(RegisteredOf(ts), actual, maxDistance, []);
    MatchUpdatesLand(ts, actual, maxDistance, frame);
    MatchedIndices(RegisteredOf(ts), actual, maxDistance, []);
    var updated := ApplyUpdates(ts, m.updates, frame).value;
    var leftover := Unmatched(actual, m.actNew, |actual|);
    var registered := FreshRun(updated, leftover, frame);
    FreshRunKeeps(updated, leftover, frame);
    FreshRunWellFormed(updated, leftover, frame);
    assert CentroidFrame(ts, frame, actual, maxDistance, maxFramesMissing) == Unregistered(registered, frame, maxFramesMissing);
    CountNotInDistinct(|actual|, m.actNew);
    assert |leftover| == |actual| - |m.actNew|;
    FreshRunEntries(updated, leftover, frame);
    EntriesUnregistered(registered, frame, maxFramesMissing);
  }

  /** The registry after a run of `_algorithm` over the first `n` of the
      given frames, each the list `objects_in_frame` yields for it. */
  function CentroidRun(ts: seq<TrackState>, frames: seq<seq<Detection>>, maxDistance: int, maxFramesMissing: int, n: nat): (r: seq<TrackState>)
    requires 1 <= n <= |frames|
    requires AllWellFormed(ts) && DenseIds(ts)
    ensures AllWellFormed(r) && DenseIds(r)
    decreases n
  {
    if n == 1 then
      FreshRunWellFormed(ts, frames[0], 0);
      FreshRun(ts, frames[0], 0)
    else
      var prev := CentroidRun(ts, frames, maxDistance, maxFramesMissing, n - 1);
      CentroidFrameKeeps(prev, n - 1, frames[n - 1], maxDistance, maxFramesMissing);
      CentroidFrame(prev, n - 1, frames[n - 1], maxDistance, maxFramesMissing)
  }

  /** Frame 0 registers each of its detections as a new object, and over a
      run every detection of every frame is recorded in exactly one history
      entry. */
  lemma {:induction false} CentroidRunSpec(ts: seq<TrackState>, frames: seq<seq<Detection>>, maxDistance: int, maxFramesMissing: int, n: nat)
    requires 1 <= n <= |frames|
    requires AllWellFormed(ts) && DenseIds(ts)
    ensures Entries(CentroidRun(ts, frames, maxDistance, maxFramesMissing, n)) == Entries(ts) + Tracker.Detected(frames, n)
    decreases n, 1
  {
    if n == 1 {
      CentroidRunFirst(ts, frames, maxDistance, maxFramesMissing, n);
    } else {
      CentroidRunLater(ts, frames, maxDistance, maxFramesMissing, n);
    }
  }

  /** The inductive case of `CentroidRunSpec`. */
  lemma {:induction false} CentroidRunLater(ts: seq<TrackState>, frames: seq<seq<Detection>>, maxDistance: int, maxFramesMissing: int, n: nat)
    requires 1 < n <= |frames|
    requires AllWellFormed(ts) && DenseIds(ts)
    ensures Entries(CentroidRun(ts, frames, maxDistance, maxFramesMissing, n)) == Entries(ts) + Tracker.Detected(frames, n)
    decreases n, 0
  {
    CentroidRunSpec(ts, frames, maxDistance, maxFramesMissing, n - 1);
    CentroidRunStep(ts, frames, maxDistance, maxFramesMissing, n);
  }

  /** The first frame registers each of its detections, in order, as a new
      object whose id is its position, and leaves the objects before them
      alone. */
  lemma CentroidRunFirstRegisters(ts: seq<TrackState>, frames: seq<seq<Detection>>, maxDistance: int, maxFramesMissing: int)
    requires 1 <= |frames|
    requires AllWellFormed(ts) && DenseIds(ts)
    ensures |CentroidRun(ts, frames, maxDistance, maxFramesMissing, 1)| == |ts| + |frames[0]|
    ensures CentroidRun(ts, frames, maxDistance, maxFramesMissing, 1)[..|ts|] == ts
    ensures forall k :: 0 <= k < |frames[0]| ==>
              CentroidRun(ts, frames, maxDistance, maxFramesMissing, 1)[|ts| + k] == Fresh(|ts| + k, 0, frames[0][k])
  {
    FreshRunKeeps(ts, frames[0], 0);
    assert CentroidRun(ts, frames, maxDistance, maxFramesMissing, 1) == FreshRun(ts, frames[0], 0);
  }

  /** The run over the first frame is its registration. */
  lemma CentroidRunOne(ts: seq<TrackState>, frames: seq<seq<Detection>>, maxDistance: int, maxFramesMissing: int, n: nat)
    requires n == 1 <= |frames|
    requires AllWellFormed(ts) && DenseIds(ts)
    ensures CentroidRun(ts, frames, maxDistance, maxFramesMissing, n) == FreshRun(ts, frames[0], 0)
  {
  }

  /** Over the first frame, one history entry per detection. */
  lemma CentroidRunFirst(ts: seq<TrackState>, frames: seq<seq<Detection>>, maxDistance: int, maxFramesMissing: int, n: nat)
    requires n == 1 <= |frames|
    requires AllWellFormed(ts) && DenseIds(ts)
    ensures Entries(CentroidRun(ts, frames, maxDistance, maxFramesMissing, n)) == Entries(ts) + Tracker.Detected(frames, n)
  {
    FreshRunEntries(ts, frames[0], 0);
    assert CentroidRun(ts, frames, maxDistance, maxFramesMissing, n) == FreshRun(ts, frames[0], 0);
  }

  /** One more frame of the run adds one history entry per detection of
      that frame. */
  lemma CentroidRunStep(ts: seq<TrackState>, frames: seq<seq<Detection>>, maxDistance: int, maxFramesMissing: int, n: nat)
    requires 1 < n <= |frames|
    requires AllWellFormed(ts) && DenseIds(ts)
    requires Entries(CentroidRun(ts, frames, maxDistance, maxFramesMissing, n - 1)) == Entries(ts) + Tracker.Detected(frames, n - 1)
    ensures Entries(CentroidRun(ts, frames, maxDistance, maxFramesMissing, n)) == Entries(ts) + Tracker.Detected(frames, n)
  {
    var prev := CentroidRun(ts, frames, maxDistance, maxFramesMissing, n - 1);
    CentroidFrameEntries(prev, n - 1, frames[n - 1], maxDistance, maxFramesMissing);
    assert Tracker.Detected(frames, n) == Tracker.Detected(frames, n - 1) + |frames[n - 1]|;
  }

  /** The run over `n + 1` frames is one more frame of the run over `n`. */
  lemma CentroidRunNext(ts: seq<TrackState>, frames: seq<seq<Detection>>, maxDistance: int, maxFramesMissing: int, n: nat)
    requires 1 <= n < |frames|
    requires AllWellFormed(ts) && DenseIds(ts)
    ensures CentroidRun(ts, frames, maxDistance, maxFramesMissing, n + 1)
         == CentroidFrame(CentroidRun(ts, frames, maxDistance, maxFramesMissing, n), n, frames[n], maxDistance, maxFramesMissing)
  {
  }

  /** The frame function, told as the three steps of the frame loop: the
      matched updates land on `ts` giving `updated`, the detections whose
      index is not in `matched` are registered, then the sweep evicts. */
  lemma CentroidFrameSteps(ts: seq<TrackState>, frame: int, actual: seq<Detection>, maxDistance: int, maxFramesMissing: int,
                           updated: seq<TrackState>, matched: seq<nat>)
    requires AllWellFormed(ts) && DenseIds(ts)
    requires ApplyUpdates(ts, MatchingOf(RegisteredOf(ts), actual, maxDistance, []).updates, frame) == Ok(updated)
    requires matched == MatchingOf(RegisteredOf(ts), actual, maxDistance, []).actNew
    ensures AllWellFormed(FreshRun(updated, Unmatched(actual, matched, |actual|), frame))
    ensures CentroidFrame(ts, frame, actual, maxDistance, maxFramesMissing)
         == Unregistered(FreshRun(updated, Unmatched(actual, matched, |actual|), frame), frame, maxFramesMissing)
  {
    FrameLands(ts, actual, maxDistance, frame);
  }

  /** The step ended with the exception of update `k`: the `k` updates before
      it landed and left the registry at `ts`. */
  ghost predicate FailedAt(ts0: seq<TrackState>, us: seq<Update>, frame: int, k: nat, ts: seq<TrackState>, e: Error)
  {
    k < |us| && ApplyUpdates(ts0, us[..k], frame) == Ok(ts) && ApplyUpdates(ts0, us[..k + 1], frame) == Err(e)
  }

  lemma ApplyUpdatesSnoc(ts: seq<TrackState>, us: seq<Update>, u: Update, frame: int)
    ensures ApplyUpdates(ts, us + [u], frame) ==
            match ApplyUpdates(ts, us, frame)
            case Err(e) => Err(e)
            case Ok(front) => UpdateTracks(front, u.uid, frame, u.obj)
  {
    assert (us + [u])[..|us|] == us;
  }

  /** An update of the loop that raises is the first failing update of the
      whole step. */
  lemma StepFailure(ts0: seq<TrackState>, actual: seq<Detection>, cs: seq<Candidate>,
                    r0: seq<nat>, n: nat, frame: int, ts: seq<TrackState>, e: Error)
    requires |cs| == |actual| && 0 < n <= |actual|
    requires ApplyUpdates(ts0, GreedyUpTo(actual, cs, r0, n - 1).updates, frame) == Ok(ts)
    requires ApplyUpdates(ts0, GreedyUpTo(actual, cs, r0, n).updates, frame) == Err(e)
    ensures ApplyUpdates(ts0, GreedyUpTo(actual, cs, r0, |actual|).updates, frame) == Err(e)
    ensures FailedAt(ts0, GreedyUpTo(actual, cs, r0, |actual|).updates, frame,
                     |GreedyUpTo(actual, cs, r0, n - 1).updates|, ts, e)
  {
    var m := GreedyUpTo(actual, cs, r0, n - 1);
    var next := GreedyUpTo(actual, cs, r0, n);
    var all := GreedyUpTo(actual, cs, r0, |actual|);
    StepExtends(actual, cs, r0, n, m);
    assert next.updates != m.updates;
    GreedyPrefix(actual, cs, r0, n, |actual|);
    var k := |m.updates|;
    assert all.updates[..k + 1] == next.updates;
    assert all.updates[..k] == next.updates[..k];
    ApplyUpdatesStops(ts0, all.updates, k + 1, frame);
  }

  /** The inner loop of `_matching_step`: the distance from one current
      detection to each registered object, in registry order. */
  method ActualDistances(objsRegistered: seq<TrackedObjectDetection>, objActual: Detection) returns (distances: seq<int>)
    ensures distances == Distances(objsRegistered, objActual)
  {
    distances := [];
    var objRegisteredId := 0;
    while objRegisteredId < |objsRegistered|
      invariant 0 <= objRegisteredId <= |objsRegistered|
      invariant distances == Distances(objsRegistered, objActual)[..objRegisteredId]
    {
      distances := distances + [Dist2(objsRegistered[objRegisteredId].obj.center, objActual.center)];
      objRegisteredId := objRegisteredId + 1;
    }
  }

  class CentroidTracker {
    const config: Tracker.TrackerConfig
    const maxDistanceAllowed: int
    /** The eviction threshold the frame loop passes to
        `unregister_missing_objects`. */
    const framesToUnregisterMissing: int
    const objects: TrackedObjects

    /** A valid configuration and a registry without purges. */
    ghost predicate Valid()
      reads this, objects, objects.tracked
    {
      Tracker.ValidConfig(config) && objects.Valid() && objects.Dense()
    }

    constructor (cfg: Tracker.TrackerConfig, maxDistance: int, framesToUnregister: int)
      requires Tracker.ValidConfig(cfg)
      ensures Valid() && fresh(objects)
      ensures config == cfg && maxDistanceAllowed == maxDistance && framesToUnregisterMissing == framesToUnregister
      ensures objects.State() == []
    {
      config := cfg;
      maxDistanceAllowed := maxDistance;
      framesToUnregisterMissing := framesToUnregister;
      objects := new TrackedObjects();
    }

    /** `_matching_step`, with the caller's two lists passed in and returned
        extended. It makes exactly the updates of `MatchingOf`, in order; if
        one raises, the step stops there with that exception. */
    method MatchingStep(objsRegistered: seq<TrackedObjectDetection>, objsRegisteredUidsMatched: seq<nat>,
                        objsActual: seq<Detection>, objsActualIdsMatched: seq<nat>, frameActual: int)
      returns (regMatched: seq<nat>, actMatched: seq<nat>, r: Outcome)
      requires objects.Valid()
      modifies objects.tracked
      ensures objects.Valid() && objects.tracked == old(objects.tracked) && objects.nextUid == old(objects.nextUid)
      ensures var m := MatchingOf(objsRegistered, objsActual, maxDistanceAllowed, objsRegisteredUidsMatched);
              match ApplyUpdates(old(objects.State()), m.updates, frameActual)
              case Ok(ts) =>
                && r == Pass && objects.State() == ts
                && regMatched == objsRegisteredUidsMatched + m.regNew
                && actMatched == objsActualIdsMatched + m.actNew
              case Err(e) =>
                && r == Fail(e)
                && exists k :: FailedAt(old(objects.State()), m.updates, frameActual, k, objects.State(), e)
    {
      regMatched, actMatched, r := objsRegisteredUidsMatched, objsActualIdsMatched, Pass;
      if |objsRegistered| == 0 || |objsActual| == 0 {
        assert ApplyUpdates(objects.State(), [], frameActual) == Ok(objects.State());
        return;
      }
      ghost var before := objects.State();
      ghost var cs := Candidates(objsRegistered, objsActual, maxDistanceAllowed);
      var objActualId := 0;
      while objActualId < |objsActual|
        invariant MatchedUpTo(before, objsActual, cs, objsRegisteredUidsMatched, objsActualIdsMatched, frameActual,
                              objActualId, regMatched, actMatched)
        invariant objects.tracked == old(objects.tracked) && objects.nextUid == old(objects.nextUid)
        invariant r == Pass
      {
        regMatched, actMatched, r := MatchingIteration(objsRegistered, objsActual, objActualId, regMatched, actMatched, frameActual,
                                                       before, cs, objsRegisteredUidsMatched, objsActualIdsMatched);
        if r.Fail? {
          return;
        }
        objActualId := objActualId + 1;
      }
    }

    /** The loop of `_matching_step` has run over the first `n` current
        detections from the registry `before`: the two lists hold the
        caller's entries followed by the matches so far, and the registry
        holds their updates. */
    ghost predicate MatchedUpTo(before: seq<TrackState>, objsActual: seq<Detection>, cs: seq<Candidate>,
                                r0: seq<nat>, a0: seq<nat>, frameActual: int, n: nat,
                                regMatched: seq<nat>, actMatched: seq<nat>)
      reads objects, objects.tracked
    {
      && |cs| == |objsActual| && n <= |objsActual| && objects.Valid()
      && var g := GreedyUpTo(objsActual, cs, r0, n);
      && regMatched == r0 + g.regNew && actMatched == a0 + g.actNew
      && ApplyUpdates(before, g.updates, frameActual) == Ok(objects.State())
    }

    /** One pass of the loop of `_matching_step` with its bookkeeping: the
        match for detection `objActualId`, if any, is recorded in both lists;
        an update that raises is the first failing update of the whole step. */
    method MatchingIteration(objsRegistered: seq<TrackedObjectDetection>, objsActual: seq<Detection>, objActualId: nat,
                             regMatched: seq<nat>, actMatched: seq<nat>, frameActual: int,
                             ghost before: seq<TrackState>, ghost cs: seq<Candidate>, ghost r0: seq<nat>, ghost a0: seq<nat>)
      returns (regNext: seq<nat>, actNext: seq<nat>, r: Outcome)
      requires |objsRegistered| > 0 && objActualId < |objsActual|
      requires cs == Candidates(objsRegistered, objsActual, maxDistanceAllowed)
      requires MatchedUpTo(before, objsActual, cs, r0, a0, frameActual, objActualId, regMatched, actMatched)
      modifies objects.tracked
      ensures objects.tracked == old(objects.tracked) && objects.nextUid == old(objects.nextUid)
      ensures r.Pass? ==> MatchedUpTo(before, objsActual, cs, r0, a0, frameActual, objActualId + 1, regNext, actNext)
      ensures r.Fail? ==>
                && objects.Valid()
                && ApplyUpdates(before, GreedyUpTo(objsActual, cs, r0, |objsActual|).updates, frameActual) == Err(r.error)
                && exists k :: FailedAt(before, GreedyUpTo(objsActual, cs, r0, |objsActual|).updates, frameActual, k, objects.State(), r.error)
    {
      ghost var front := objects.State();
      var matched, minDistanceIndex;
      matched, minDistanceIndex, r := MatchDetection(objsRegistered, objsActual, objActualId, regMatched, frameActual);
      regNext, actNext := regMatched, actMatched;
      if !matched {
        GreedySkip(objsActual, cs, r0, objActualId);
        return;
      }
      GreedyMatch(before, objsActual, cs, r0, objActualId, frameActual, front);
      if r.Fail? {
        StepFailure(before, objsActual, cs, r0, objActualId + 1, frameActual, front, r.error);
        return;
      }
      regNext := regMatched + [minDistanceIndex];
      actNext := actMatched + [objActualId];
    }

    /** One iteration of the loop of `_matching_step`, for current detection
        `objActualId`: the distances to the registered objects, the first
        nearest one, and the update of that object when it is not in
        `regMatched` yet and within range. */
    method MatchDetection(objsRegistered: seq<TrackedObjectDetection>, objsActual: seq<Detection>, objActualId: nat,
                          regMatched: seq<nat>, frameActual: int)
      returns (matched: bool, minDistanceIndex: nat, r: Outcome)
      requires objects.Valid() && |objsRegistered| > 0 && objActualId < |objsActual|
      modifies objects.tracked
      ensures objects.Valid() && objects.tracked == old(objects.tracked) && objects.nextUid == old(objects.nextUid)
      ensures var c := Candidates(objsRegistered, objsActual, maxDistanceAllowed)[objActualId];
              && minDistanceIndex == c.idx && minDistanceIndex < |objsRegistered|
              && objsRegistered[minDistanceIndex].id == c.uid
              && (matched <==> c.idx !in regMatched && c.close)
      ensures !matched ==> r == Pass && objects.State() == old(objects.State())
      ensures matched ==>
                match UpdateTracks(old(objects.State()), objsRegistered[minDistanceIndex].id, frameActual, objsActual[objActualId])
                case Ok(ts) => r == Pass && objects.State() == ts
                case Err(e) => r == Fail(e) && objects.State() == old(objects.State())
    {
      var distances := ActualDistances(objsRegistered, objsActual[objActualId]);
      var minDistance := MinOf(distances);
      minDistanceIndex := IndexOf(distances, minDistance);
      NearestIsFirstMinimum(objsRegistered, objsActual[objActualId]);
      CandidatesAt(objsRegistered, objsActual, maxDistanceAllowed, objActualId);
      matched := minDistanceIndex !in regMatched && Within(minDistance, maxDistanceAllowed);
      r := Pass;
      if matched {
        r := objects.UpdateObject(objsActual[objActualId], objsRegistered[minDistanceIndex].id, frameActual);
      }
    }

    /** Step 2 of the frame loop of `_algorithm`: every current detection
        whose index is not among the matched ones is registered at this frame,
        in index order. */
    method RegisterUnmatched(objsActual: seq<Detection>, objsActualIdsMatched: seq<nat>, frameActual: int)
      requires Valid()
      modifies objects
      ensures Valid()
      ensures objects.State() == FreshRun(old(objects.State()), Unmatched(objsActual, objsActualIdsMatched, |objsActual|), frameActual)
      ensures forall o :: o in objects.tracked ==> o in old(objects.tracked) || fresh(o)
    {
      ghost var start := objects.State();
      for objActualId := 0 to |objsActual|
        invariant Valid()
        invariant objects.State() == FreshRun(start, Unmatched(objsActual, objsActualIdsMatched, objActualId), frameActual)
        invariant forall o :: o in objects.tracked ==> o in old(objects.tracked) || fresh(o)
      {
        RegisterIfUnmatched(objsActual, objsActualIdsMatched, objActualId, frameActual, start);
      }
    }

    /** One iteration of the registration loop: detection `objActualId` is
        registered unless it was matched. */
    method RegisterIfUnmatched(objsActual: seq<Detection>, objsActualIdsMatched: seq<nat>, objActualId: nat, frameActual: int,
                               ghost start: seq<TrackState>)
      requires objActualId < |objsActual|
      requires Valid() && objects.State() == FreshRun(start, Unmatched(objsActual, objsActualIdsMatched, objActualId), frameActual)
      modifies objects
      ensures Valid()
      ensures objects.State() == FreshRun(start, Unmatched(objsActual, objsActualIdsMatched, objActualId + 1), frameActual)
      ensures forall o :: o in objects.tracked ==> o in old(objects.tracked) || fresh(o)
    {
      ghost var left := Unmatched(objsActual, objsActualIdsMatched, objActualId);
      if objActualId !in objsActualIdsMatched {
        assert Unmatched(objsActual, objsActualIdsMatched, objActualId + 1) == left + [objsActual[objActualId]];
        RegisterFresh(objsActual[objActualId], frameActual, start, left);
      } else {
        assert Unmatched(objsActual, objsActualIdsMatched, objActualId + 1) == left;
      }
    }

    /** One `register_object` call in a run of registrations from `start`:
        the run grows by the fresh object for `obj`. */
    method RegisterFresh(obj: Detection, frame: int, ghost start: seq<TrackState>, ghost objs: seq<Detection>)
      requires Valid() && objects.State() == FreshRun(start, objs, frame)
      modifies objects
      ensures Valid()
      ensures objects.State() == FreshRun(start, objs + [obj], frame)
      ensures forall o :: o in objects.tracked ==> o in old(objects.tracked) || fresh(o)
    {
      FreshRunSnoc(start, objs, obj, frame);
      var _ := objects.RegisterObject(obj, frame);
    }

    /** The registry holds the run from `before` over the first `n` frames. */
    ghost predicate RanTo(before: seq<TrackState>, n: nat)
      reads this, objects, objects.tracked
    {
      && Valid() && 1 <= n <= config.sequenceLength
      && AllWellFormed(before) && DenseIds(before)
      && objects.State() == CentroidRun(before, Tracker.Frames(config), maxDistanceAllowed, framesToUnregisterMissing, n)
    }

    /** One iteration of the frame loop of `_algorithm`: match the frame's
        detections against `registered_objects()`, register those left
        unmatched, evict; the run from `before` grows by one frame. */
    method ProcessFrame(frameActual: nat, ghost before: seq<TrackState>)
      requires RanTo(before, frameActual) && frameActual < config.sequenceLength
      modifies objects, set o | o in objects.tracked
      ensures RanTo(before, frameActual + 1)
      ensures forall o :: o in objects.tracked ==> o in old(objects.tracked) || fresh(o)
    {
      var objsActual := Tracker.ObjectsInFrame(config, frameActual);
      CentroidRunNext(before, Tracker.Frames(config), maxDistanceAllowed, framesToUnregisterMissing, frameActual);
      Tracker.FrameOf(config, frameActual);
      MatchRegisterEvict(objsActual, frameActual);
    }

    /** The three steps of the frame loop for the frame's detections
        `objsActual`. */
    method MatchRegisterEvict(objsActual: seq<Detection>, frameActual: int)
      requires Valid()
      modifies objects, set o | o in objects.tracked
      ensures Valid()
      ensures objects.State() == CentroidFrame(old(objects.State()), frameActual, objsActual,
                                               maxDistanceAllowed, framesToUnregisterMissing)
      ensures forall o :: o in objects.tracked ==> o in old(objects.tracked) || fresh(o)
    {
      objects.ValidStateWellFormed();
      ghost var start := objects.State();
      var objsActualIdsMatched := MatchFrame(objsActual, frameActual);
      ghost var updated := objects.State();
      RegisterUnmatched(objsActual, objsActualIdsMatched, frameActual);
      CentroidFrameSteps(start, frameActual, objsActual, maxDistanceAllowed, framesToUnregisterMissing, updated, objsActualIdsMatched);
      ghost var registered := objects.State();
      objects.UnregisterMissingObjects(frameActual, framesToUnregisterMissing);
      UnregisteredSpec(registered, frameActual, framesToUnregisterMissing);
    }

    /** Step 1 of the frame loop: `_matching_step` against
        `registered_objects()` with empty matched lists. Its updates all land,
        so it leaves the registry valid and returns the indices it matched. */
    method MatchFrame(objsActual: seq<Detection>, frameActual: int) returns (objsActualIdsMatched: seq<nat>)
      requires Valid()
      modifies objects.tracked
      ensures Valid() && objects.tracked == old(objects.tracked)
      ensures AllWellFormed(old(objects.State()))
      ensures var m := MatchingOf(RegisteredOf(old(objects.State())), objsActual, maxDistanceAllowed, []);
              && ApplyUpdates(old(objects.State()), m.updates, frameActual) == Ok(objects.State())
              && objsActualIdsMatched == m.actNew
    {
      ghost var start := objects.State();
      var objsRegistered := objects.RegisteredObjects();
      var objsRegisteredUidsMatched, stepOutcome;
      objsRegisteredUidsMatched, objsActualIdsMatched, stepOutcome := MatchingStep(objsRegistered, [], objsActual, [], frameActual);
      MatchUpdatesLand(start, objsActual, maxDistanceAllowed, frameActual);
    }

    /** `_algorithm`: fails only when the sequence has no frame 0; otherwise
        leaves the registry of `CentroidRun` over all frames. */
    method Algorithm() returns (r: Outcome)
      requires Valid()
      modifies objects, set o | o in objects.tracked
      ensures Valid()
      ensures r.Fail? <==> config.sequenceLength == 0
      ensures r.Pass? ==> objects.State() == CentroidRun(old(objects.State()), Tracker.Frames(config), maxDistanceAllowed, framesToUnregisterMissing, config.sequenceLength)
    {
      if config.sequenceLength == 0 {
        return Fail(IndexOutOfRange(0));
      }
      ghost var before := objects.State();
      RegisterInitial();
      FrameLoop(before);
      r := Pass;
    }

    /** Step 2 of `_algorithm`: the frame loop over frames 1 onwards, from
        the registry `before` with frame 0 registered. */
    method FrameLoop(ghost before: seq<TrackState>)
      requires Valid() && 0 < config.sequenceLength
      requires AllWellFormed(before) && DenseIds(before)
      requires objects.State() == FreshRun(before, Tracker.ObjectsInFrame(config, 0), 0)
      modifies objects, set o | o in objects.tracked
      ensures Valid()
      ensures objects.State() == CentroidRun(before, Tracker.Frames(config), maxDistanceAllowed, framesToUnregisterMissing, config.sequenceLength)
      ensures forall o :: o in objects.tracked ==> o in old(objects.tracked) || fresh(o)
    {
      var frameActual := 1;
      Tracker.FrameOf(config, 0);
      CentroidRunOne(before, Tracker.Frames(config), maxDistanceAllowed, framesToUnregisterMissing, frameActual);
      while frameActual < config.sequenceLength
        invariant RanTo(before, frameActual)
        invariant forall o :: o in objects.tracked ==> o in old(objects.tracked) || fresh(o)
      {
        ProcessFrame(frameActual, before);
        frameActual := frameActual + 1;
      }
    }

    /** Step 1 of `_algorithm`: every detection of frame 0 is registered at
        frame 0, in order. */
    method RegisterInitial()
      requires Valid() && 0 < config.sequenceLength
      modifies objects
      ensures Valid()
      ensures objects.State() == FreshRun(old(objects.State()), Tracker.ObjectsInFrame(config, 0), 0)
      ensures forall o :: o in objects.tracked ==> o in old(objects.tracked) || fresh(o)
    {
      ghost var before := objects.State();
      var initial := Tracker.ObjectsInFrame(config, 0);
      for k := 0 to |initial|
        invariant Valid()
        invariant objects.State() == FreshRun(before, initial[..k], 0)
        invariant forall o :: o in objects.tracked ==> o in old(objects.tracked) || fresh(o)
      {
        assert initial[..k + 1] == initial[..k] + [initial[k]];
        RegisterFresh(initial[k], 0, before, initial[..k]);
      }
      assert initial[..|initial|] == initial;
    }
  }
}
