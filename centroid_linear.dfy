/** `CentroidLinearTracker`: each current detection is paired with the nearest
    active registered object (the first minimum of its column of the distance
    matrix) when that distance is strictly below the tolerance; conflicts are
    resolved by keeping the first pair of each registered object; the rest of
    the frame's detections are registered as new objects, and the registry
    then evicts the objects missing for too long.

    Distances are squared integer distances between centres. The tolerance
    enters as `toleranceSquared`, the square of the tolerance rounded up
    (`ToleranceSquared`), zero for a tolerance that is not positive; then a
    distance `d` with square `d2` is below the tolerance exactly when `d2` is
    below `toleranceSquared` (`BelowToleranceExact`). */
module CentroidLinear {
  import opened Common
  import opened Tracker

  /** `_distance_tolerance`: the larger side of the frame times the factor. */
  function DistanceTolerance(frameWidth: nat, frameHeight: nat, factor: real): (t: real)
    ensures t == frameWidth as real * factor || t == frameHeight as real * factor
    ensures 0.0 <= factor ==> frameWidth as real * factor <= t && frameHeight as real * factor <= t
  {
    var a := if frameWidth < frameHeight then frameHeight else frameWidth;
    if 0.0 <= factor then
      RealMulLe(frameWidth as real, a as real, factor);
      RealMulLe(frameHeight as real, a as real, factor);
      a as real * factor
    else a as real * factor
  }

  /** The smallest integer at or above `x`. */
  function Ceil(x: real): (c: int)
    ensures c as real - 1.0 < x <= c as real
  {
    -((-x).Floor)
  }

  /** The squared tolerance the model compares squared distances with: the
      square of a positive tolerance rounded up, zero otherwise. */
  function ToleranceSquared(t: real): (r: nat)
    ensures t <= 0.0 ==> r == 0
    ensures 0.0 < t ==> r as real - 1.0 < t * t <= r as real
  {
    if t <= 0.0 then 0
    else
      ProductSign(t, t);
      Ceil(t * t)
  }

  /** A Euclidean distance `d` with square `d2` passes the source's strict
      `d < t` exactly when `d2 < ToleranceSquared(t)`, for every tolerance,
      negative ones included. */
  lemma BelowToleranceExact(d: real, d2: nat, t: real)
    requires 0.0 <= d && d * d == d2 as real
    ensures d < t <==> d2 < ToleranceSquared(t)
  {
    if 0.0 < t {
      SquareLt(d, t);
      var r := ToleranceSquared(t);
      assert d2 < r <==> d2 as real < t * t;
    }
  }

  /** Column of the distance matrix for the current detection `c`. */
  function Column(prev: seq<Detection>, c: Detection): (d: seq<int>)
    ensures |d| == |prev|
  {
    seq(|prev|, i requires 0 <= i < |prev| => Dist2(prev[i].center, c.center))
  }

  /** `i` is the first position of a minimal distance in `col`. */
  predicate Nearest(col: seq<int>, i: int)
  {
    && 0 <= i < |col|
    && (forall k :: 0 <= k < |col| ==> col[i] <= col[k])
    && (forall k :: 0 <= k < i ==> col[i] < col[k])
  }

  /** `np.argmin` of a column picks exactly the nearest previous object. */
  lemma NearestIsArgMin(col: seq<int>, i: int)
    requires |col| > 0
    ensures Nearest(col, i) <==> i == ArgMin(col)
  {
  }

  /** The distance matrix, column by column. */
  function Columns(prev: seq<Detection>, actual: seq<Detection>): (cols: seq<seq<int>>)
    ensures |cols| == |actual|
    ensures forall j :: 0 <= j < |actual| ==> cols[j] == Column(prev, actual[j])
  {
    seq(|actual|, j requires 0 <= j < |actual| => Column(prev, actual[j]))
  }

  /** The pairs the column scan emits for the first `n` columns. */
  function MatchesUpTo(cols: seq<seq<int>>, toleranceSquared: nat, n: nat): seq<(nat, nat)>
    requires n <= |cols| && forall j :: 0 <= j < |cols| ==> |cols[j]| > 0
  {
    if n == 0 then []
    else
      var front := MatchesUpTo(cols, toleranceSquared, n - 1);
      var i := ArgMin(cols[n - 1]);
      if cols[n - 1][i] < toleranceSquared then front + [(i, n - 1)] else front
  }

  /** What `_calculate_matches` returns. */
  function ColumnMatches(prev: seq<Detection>, actual: seq<Detection>, toleranceSquared: nat): seq<(nat, nat)>
  {
    if |prev| > 0 && |actual| > 0 then MatchesUpTo(Columns(prev, actual), toleranceSquared, |actual|) else []
  }

  /** Every pair names a column below `n` and its nearest row, closer than
      the tolerance, and the pairs ascend by column. */
  ghost predicate SoundMatches(cols: seq<seq<int>>, toleranceSquared: nat, n: nat, r: seq<(nat, nat)>)
    requires n <= |cols|
  {
    && (forall k :: 0 <= k < |r| ==>
          r[k].1 < n && Nearest(cols[r[k].1], r[k].0) && cols[r[k].1][r[k].0] < toleranceSquared)
    && (forall k, l :: 0 <= k < l < |r| ==> r[k].1 < r[l].1)
  }

  /** Every column below `n` whose nearest row is closer than the tolerance
      has its pair. */
  ghost predicate CompleteMatches(cols: seq<seq<int>>, toleranceSquared: nat, n: nat, r: seq<(nat, nat)>)
    requires n <= |cols|
  {
    forall j, i :: 0 <= j < n && Nearest(cols[j], i) && cols[j][i] < toleranceSquared ==>
      exists k :: 0 <= k < |r| && r[k] == (i, j)
  }

  lemma {:induction false} MatchesUpToSound(cols: seq<seq<int>>, toleranceSquared: nat, n: nat)
    requires n <= |cols| && forall j :: 0 <= j < |cols| ==> |cols[j]| > 0
    ensures SoundMatches(cols, toleranceSquared, n, MatchesUpTo(cols, toleranceSquared, n))
  {
    if n > 0 {
      MatchesUpToSound(cols, toleranceSquared, n - 1);
      var front := MatchesUpTo(cols, toleranceSquared, n - 1);
      var a := ArgMin(cols[n - 1]);
      NearestIsArgMin(cols[n - 1], a);
      if cols[n - 1][a] < toleranceSquared {
        var r: seq<(nat, nat)> := front + [(a, n - 1)];
        assert MatchesUpTo(cols, toleranceSquared, n) == r;
        forall k | 0 <= k < |r|
          ensures r[k].1 < n && Nearest(cols[r[k].1], r[k].0) && cols[r[k].1][r[k].0] < toleranceSquared
        {
          if k < |front| {
            assert r[k] == front[k];
          }
        }
        forall k, l | 0 <= k < l < |r|
          ensures r[k].1 < r[l].1
        {
          assert r[k] == front[k];
          if l < |front| {
            assert r[l] == front[l];
          }
        }
      }
    }
  }

  lemma {:induction false} MatchesUpToComplete(cols: seq<seq<int>>, toleranceSquared: nat, n: nat)
    requires n <= |cols| && forall j :: 0 <= j < |cols| ==> |cols[j]| > 0
    ensures CompleteMatches(cols, toleranceSquared, n, MatchesUpTo(cols, toleranceSquared, n))
  {
    if n > 0 {
      MatchesUpToComplete(cols, toleranceSquared, n - 1);
      var front := MatchesUpTo(cols, toleranceSquared, n - 1);
      var r := MatchesUpTo(cols, toleranceSquared, n);
      var a := ArgMin(cols[n - 1]);
      assert r == if cols[n - 1][a] < toleranceSquared then front + [(a, n - 1)] else front;
      forall j, i | 0 <= j < n && Nearest(cols[j], i) && cols[j][i] < toleranceSquared
        ensures exists k :: 0 <= k < |r| && r[k] == (i, j)
      {
        if j < n - 1 {
          var k :| 0 <= k < |front| && front[k] == (i, j);
          assert r[k] == (i, j);
        } else {
          NearestIsArgMin(cols[j], i);
          assert r[|r| - 1] == (i, j);
        }
      }
    }
  }

  /** `_calculate_matches`: no pairs when either list is empty; otherwise at
      most one pair per current index `j`, in ascending `j`, whose previous
      index is the nearest one, and only when that distance is strictly
      below the tolerance; and every current detection whose nearest
      previous object is that close gets its pair. */
  lemma ColumnMatchesSpec(prev: seq<Detection>, actual: seq<Detection>, toleranceSquared: nat)
    ensures var r := ColumnMatches(prev, actual, toleranceSquared);
            && (|prev| == 0 || |actual| == 0 ==> r == [])
            && (forall k :: 0 <= k < |r| ==>
                  && r[k].0 < |prev| && r[k].1 < |actual|
                  && Nearest(Column(prev, actual[r[k].1]), r[k].0)
                  && Column(prev, actual[r[k].1])[r[k].0] < toleranceSquared)
            && (forall k, l :: 0 <= k < l < |r| ==> r[k].1 < r[l].1)
            && (forall j, i ::
                  (0 <= j < |actual| && Nearest(Column(prev, actual[j]), i) && Column(prev, actual[j])[i] < toleranceSquared)
                  ==> exists k :: 0 <= k < |r| && r[k] == (i, j))
  {
    if |prev| > 0 && |actual| > 0 {
      MatchesUpToSound(Columns(prev, actual), toleranceSquared, |actual|);
      MatchesUpToComplete(Columns(prev, actual), toleranceSquared, |actual|);
    }
  }

  /** Column `j` of a matrix. */
  function ColumnOf(d: array2<int>, j: nat): (c: seq<int>)
    requires j < d.Length1
    reads d
    ensures |c| == d.Length0
  {
    seq(d.Length0, i requires 0 <= i < d.Length0 reads d => d[i, j])
  }

  /** `np.argmin(distances[:, j])`. */
  method ArgMinColumn(d: array2<int>, j: nat) returns (best: nat)
    requires d.Length0 > 0 && j < d.Length1
    ensures best == ArgMin(ColumnOf(d, j))
  {
    ghost var col := ColumnOf(d, j);
    best := 0;
    for i := 1 to d.Length0
      invariant best == ArgMin(col[..i])
    {
      assert col[..i + 1][..i] == col[..i];
      assert col[..i + 1][i] == d[i, j] && col[..i + 1][best] == d[best, j];
      if d[i, j] < d[best, j] {
        best := i;
      }
    }
    assert col[..d.Length0] == col;
  }

  /** `_calculate_matches`: fills the distance matrix row by row, then scans
      it column by column. */
  method CalculateMatches(prev: seq<Detection>, actual: seq<Detection>, toleranceSquared: nat) returns (matches: seq<(nat, nat)>)
    ensures matches == ColumnMatches(prev, actual, toleranceSquared)
  {
    matches := [];
    if |prev| > 0 && |actual| > 0 {
      var distances := DistanceMatrix(prev, actual);
      for j := 0 to |actual|
        invariant RowsFilled(distances, prev, actual, |prev|)
        invariant matches == MatchesUpTo(Columns(prev, actual), toleranceSquared, j)
      {
        matches := MatchColumn(distances, prev, actual, toleranceSquared, j, matches);
      }
    }
  }

  /** The first `n` rows of `d` hold the squared distances from the previous
      centroids to the current ones. */
  ghost predicate RowsFilled(d: array2<int>, prev: seq<Detection>, actual: seq<Detection>, n: nat)
    reads d
  {
    && d.Length0 == |prev| && d.Length1 == |actual| && n <= |prev|
    && forall i, j :: 0 <= i < n && 0 <= j < |actual| ==> d[i, j] == Dist2(prev[i].center, actual[j].center)
  }

  /** The distance matrix of `_calculate_matches`, filled row by row. */
  method DistanceMatrix(prev: seq<Detection>, actual: seq<Detection>) returns (distances: array2<int>)
    ensures fresh(distances) && RowsFilled(distances, prev, actual, |prev|)
  {
    distances := new int[|prev|, |actual|];
    for i := 0 to |prev|
      invariant RowsFilled(distances, prev, actual, i)
    {
      FillRow(distances, prev, actual, i);
    }
  }

  /** Row `i` of the distance matrix. */
  method FillRow(distances: array2<int>, prev: seq<Detection>, actual: seq<Detection>, i: nat)
    requires i < |prev| && RowsFilled(distances, prev, actual, i)
    modifies distances
    ensures RowsFilled(distances, prev, actual, i + 1)
  {
    for j := 0 to |actual|
      invariant RowsFilled(distances, prev, actual, i)
      invariant forall j' :: 0 <= j' < j ==> distances[i, j'] == Dist2(prev[i].center, actual[j'].center)
    {
      distances[i, j] := Dist2(prev[i].center, actual[j].center);
    }
  }

  /** One column of the scan: the nearest previous object of current
      detection `j` is paired with it when strictly within the tolerance. */
  method MatchColumn(distances: array2<int>, prev: seq<Detection>, actual: seq<Detection>, toleranceSquared: nat,
                     j: nat, matches: seq<(nat, nat)>) returns (next: seq<(nat, nat)>)
    requires 0 < |prev| && j < |actual| && RowsFilled(distances, prev, actual, |prev|)
    requires matches == MatchesUpTo(Columns(prev, actual), toleranceSquared, j)
    ensures next == MatchesUpTo(Columns(prev, actual), toleranceSquared, j + 1)
  {
    var best := ArgMinColumn(distances, j);
    assert ColumnOf(distances, j) == Column(prev, actual[j]);
    next := matches;
    if distances[best, j] < toleranceSquared {
      next := matches + [(best, j)];
    }
  }

  /** The first components of a list of pairs: the previous-object indices
      of matches, or the uids of `objects_with_uid`. */
  function Firsts<A, B>(ps: seq<(A, B)>): (r: seq<A>)
    ensures |r| == |ps| && forall k :: 0 <= k < |ps| ==> r[k] == ps[k].0
  {
    seq(|ps|, k requires 0 <= k < |ps| => ps[k].0)
  }

  /** The second components of a list of pairs: the current-object indices
      of matches, or the detections of `objects_with_uid`. */
  function Seconds<A, B>(ps: seq<(A, B)>): (r: seq<B>)
    ensures |r| == |ps| && forall k :: 0 <= k < |ps| ==> r[k] == ps[k].1
  {
    seq(|ps|, k requires 0 <= k < |ps| => ps[k].1)
  }

  /** The pairs `_resolve_matches` keeps: a pair survives when no earlier
      surviving pair has its previous index. */
  function Resolved(ms: seq<(nat, nat)>): seq<(nat, nat)>
  {
    if ms == [] then []
    else
      var front := Resolved(ms[..|ms| - 1]);
      if ms[|ms| - 1].0 in Firsts(front) then front else front + [ms[|ms| - 1]]
  }

  /** `_resolve_matches`, with the flag array `object_prev_matched`. */
  method ResolveMatches(matches: seq<(nat, nat)>, prevCount: nat) returns (resolved: seq<(nat, nat)>)
    requires forall k :: 0 <= k < |matches| ==> matches[k].0 < prevCount
    ensures resolved == Resolved(matches)
  {
    resolved := [];
    var matched := new bool[prevCount](_ => false);
    for n := 0 to |matches|
      invariant resolved == Resolved(matches[..n])
      invariant forall i :: 0 <= i < prevCount ==> (matched[i] <==> i in Firsts(resolved))
    {
      assert matches[..n + 1][..n] == matches[..n];
      var (i, j) := matches[n];
      if !matched[i] {
        assert Firsts(resolved + [(i, j)]) == Firsts(resolved) + [i];
        resolved := resolved + [(i, j)];
        matched[i] := true;
      }
    }
    assert matches[..|matches|] == matches;
  }

  /** `_resolve_matches` keeps, for each previous index that has a pair, its
      first pair and only that one, in input order: the result is the
      subsequence of the input at the first position of each previous index,
      and its previous indices are pairwise distinct. */
  lemma ResolvedSpec(ms: seq<(nat, nat)>)
    ensures var r := Resolved(ms);
            var p := Firsts(ms);
            && NoDup(Firsts(r))
            && (forall x :: x in p <==> x in Firsts(r))
            && (forall k :: 0 <= k < |r| ==> IndexOf(p, r[k].0) < |ms| && r[k] == ms[IndexOf(p, r[k].0)])
            && (forall k, l :: 0 <= k < l < |r| ==> IndexOf(p, r[k].0) < IndexOf(p, r[l].0))
  {
    ResolvedDistinct(ms);
    ResolvedSameFirsts(ms);
    ResolvedFirstPairs(ms);
    ResolvedOrder(ms);
  }

  /** The last pair is kept exactly when its previous index is new, and the
      first positions of the earlier indices do not move. */
  lemma ResolvedSnoc(ms: seq<(nat, nat)>)
    requires ms != []
    ensures var n := |ms| - 1;
            var front := Resolved(ms[..n]);
            var p' := Firsts(ms[..n]);
            var p := Firsts(ms);
            && p == p' + [ms[n].0]
            && Resolved(ms) == (if ms[n].0 in Firsts(front) then front else front + [ms[n]])
            && (ms[n].0 !in Firsts(front) ==> Firsts(Resolved(ms)) == Firsts(front) + [ms[n].0])
            && (forall x :: x in p' ==> IndexOf(p, x) == IndexOf(p', x))
            && (ms[n].0 !in p' ==> IndexOf(p, ms[n].0) == n)
            && (forall k :: 0 <= k < n ==> ms[..n][k] == ms[k])
  {
    var n := |ms| - 1;
    var p' := Firsts(ms[..n]);
    var p := Firsts(ms);
    assert p == p' + [ms[n].0];
    forall x | x in p'
      ensures IndexOf(p, x) == IndexOf(p', x)
    {
      IndexOfSnoc(p', ms[n].0, x);
    }
    IndexOfSnoc(p', ms[n].0, ms[n].0);
    var front := Resolved(ms[..n]);
    if ms[n].0 !in Firsts(front) {
      assert Firsts(front + [ms[n]]) == Firsts(front) + [ms[n].0];
    }
  }

  /** No previous index is kept twice. */
  lemma {:induction false} ResolvedDistinct(ms: seq<(nat, nat)>)
    ensures NoDup(Firsts(Resolved(ms)))
  {
    if ms != [] {
      var n := |ms| - 1;
      ResolvedSnoc(ms);
      ResolvedDistinct(ms[..n]);
      var front := Firsts(Resolved(ms[..n]));
      if ms[n].0 !in front {
        var f := front + [ms[n].0];
        forall i, j | 0 <= i < j < |f|
          ensures f[i] != f[j]
        {
          if j == |front| {
            assert f[i] == front[i];
          }
        }
      }
    }
  }

  /** Every previous index with a pair is kept, and no other. */
  lemma {:induction false} ResolvedSameFirsts(ms: seq<(nat, nat)>)
    ensures forall x :: x in Firsts(ms) <==> x in Firsts(Resolved(ms))
  {
    if ms != [] {
      var n := |ms| - 1;
      ResolvedSnoc(ms);
      ResolvedSameFirsts(ms[..n]);
    }
  }

  /** Each kept pair is the input pair at the first position of its
      previous index. */
  lemma {:induction false} ResolvedFirstPairs(ms: seq<(nat, nat)>)
    ensures var r := Resolved(ms);
            var p := Firsts(ms);
            forall k :: 0 <= k < |r| ==> IndexOf(p, r[k].0) < |ms| && r[k] == ms[IndexOf(p, r[k].0)]
  {
    if ms != [] {
      var n := |ms| - 1;
      ResolvedSnoc(ms);
      ResolvedFirstPairs(ms[..n]);
      ResolvedSameFirsts(ms[..n]);
      var front := Resolved(ms[..n]);
      var r := Resolved(ms);
      var p := Firsts(ms);
      var p' := Firsts(ms[..n]);
      forall k | 0 <= k < |r|
        ensures IndexOf(p, r[k].0) < |ms| && r[k] == ms[IndexOf(p, r[k].0)]
      {
        if k < |front| {
          assert r[k] == front[k] && front[k].0 in Firsts(front);
          assert IndexOf(p, r[k].0) == IndexOf(p', r[k].0);
        } else {
          assert r[k] == ms[n] && ms[n].0 !in p';
        }
      }
    }
  }

  /** The kept pairs come in the order of their first positions. */
  lemma {:induction false} ResolvedOrder(ms: seq<(nat, nat)>)
    ensures var r := Resolved(ms);
            var p := Firsts(ms);
            forall k, l :: 0 <= k < l < |r| ==> IndexOf(p, r[k].0) < IndexOf(p, r[l].0)
  {
    if ms != [] {
      ResolvedOrder(ms[..|ms| - 1]);
      ResolvedOrderSnoc(ms);
    }
  }

  /** The order of first positions survives appending one more input pair. */
  lemma ResolvedOrderSnoc(ms: seq<(nat, nat)>)
    requires ms != []
    requires var r := Resolved(ms[..|ms| - 1]);
             var p := Firsts(ms[..|ms| - 1]);
             forall k, l :: 0 <= k < l < |r| ==> IndexOf(p, r[k].0) < IndexOf(p, r[l].0)
    ensures var r := Resolved(ms);
            var p := Firsts(ms);
            forall k, l :: 0 <= k < l < |r| ==> IndexOf(p, r[k].0) < IndexOf(p, r[l].0)
  {
    var n := |ms| - 1;
    ResolvedSnoc(ms);
    ResolvedSameFirsts(ms[..n]);
    var front := Resolved(ms[..n]);
    var p := Firsts(ms);
    var p' := Firsts(ms[..n]);
    forall k | 0 <= k < |front|
      ensures IndexOf(p, front[k].0) == IndexOf(p', front[k].0) < n
    {
      assert front[k].0 in Firsts(front);
    }
    if ms[n].0 !in Firsts(front) {
      AppendOrder(front, ms[n], p);
    }
  }

  /** Appending a pair whose first position lies after those of all the
      others keeps the pairs in order of first positions. */
  lemma AppendOrder(front: seq<(nat, nat)>, m: (nat, nat), p: seq<nat>)
    requires forall k, l :: 0 <= k < l < |front| ==> IndexOf(p, front[k].0) < IndexOf(p, front[l].0)
    requires forall k :: 0 <= k < |front| ==> IndexOf(p, front[k].0) < IndexOf(p, m.0)
    ensures var r := front + [m];
            forall k, l :: 0 <= k < l < |r| ==> IndexOf(p, r[k].0) < IndexOf(p, r[l].0)
  {
    var r := front + [m];
    forall k, l | 0 <= k < l < |r|
      ensures IndexOf(p, r[k].0) < IndexOf(p, r[l].0)
    {
      assert r[k] == front[k];
      if l < |front| {
        assert r[l] == front[l];
      }
    }
  }

  /** Pairs with ascending current indices keep them ascending once
      resolved, so the matched current indices are distinct. */
  lemma ResolvedSecondsAscending(ms: seq<(nat, nat)>)
    requires forall k, l :: 0 <= k < l < |ms| ==> ms[k].1 < ms[l].1
    ensures var r := Resolved(ms);
            forall k, l :: 0 <= k < l < |r| ==> r[k].1 < r[l].1
  {
    ResolvedSpec(ms);
  }

  /** Every resolved pair names a listed uid, a current detection and a
      registered position. */
  predicate Targets(uids: seq<int>, actual: seq<Detection>, resolved: seq<(nat, nat)>, count: nat)
  {
    forall k :: 0 <= k < |resolved| ==>
      resolved[k].0 < |uids| && resolved[k].1 < |actual| && 0 <= uids[resolved[k].0] < count
  }

  /** The uid each resolved pair updates. */
  function TargetUids(uids: seq<int>, resolved: seq<(nat, nat)>): (r: seq<int>)
    requires forall k :: 0 <= k < |resolved| ==> resolved[k].0 < |uids|
    ensures |r| == |resolved|
  {
    seq(|resolved|, k requires 0 <= k < |resolved| => uids[resolved[k].0])
  }

  /** The updates of the `_do_matches` loop, in order. */
  function ApplyMatches(reg: Registry, uids: seq<int>, actual: seq<Detection>, resolved: seq<(nat, nat)>, frameId: int): (r: Registry)
    requires reg.Inv() && Targets(uids, actual, resolved, |reg.objects|)
    ensures r.Inv() && |r.objects| == |reg.objects|
    ensures r.nextUid == reg.nextUid && r.objectsUid == reg.objectsUid
    ensures r.unregistered == reg.unregistered && r.framesToUnregister == reg.framesToUnregister
    decreases |resolved|
  {
    if resolved == [] then reg
    else
      var front := ApplyMatches(reg, uids, actual, resolved[..|resolved| - 1], frameId);
      var pair := resolved[|resolved| - 1];
      front.Updated(actual[pair.1], uids[pair.0], frameId)
  }

  /** Each update adds one history entry. */
  lemma {:induction false} ApplyMatchesEntries(reg: Registry, uids: seq<int>, actual: seq<Detection>, resolved: seq<(nat, nat)>, frameId: int)
    requires reg.Inv() && Targets(uids, actual, resolved, |reg.objects|)
    ensures HistoryEntries(ApplyMatches(reg, uids, actual, resolved, frameId).history) == HistoryEntries(reg.history) + |resolved|
    decreases |resolved|
  {
    if resolved != [] {
      var front := ApplyMatches(reg, uids, actual, resolved[..|resolved| - 1], frameId);
      ApplyMatchesEntries(reg, uids, actual, resolved[..|resolved| - 1], frameId);
      var pair := resolved[|resolved| - 1];
      HistoryEntriesAppendAt(front.history, uids[pair.0], FrameEntry(frameId, actual[pair.1]));
    }
  }

  /** The detection each resolved pair applies. */
  function TargetDets(actual: seq<Detection>, resolved: seq<(nat, nat)>): (r: seq<Detection>)
    requires forall k :: 0 <= k < |resolved| ==> resolved[k].1 < |actual|
    ensures |r| == |resolved|
  {
    seq(|resolved|, k requires 0 <= k < |resolved| => actual[resolved[k].1])
  }

  /** `after` is `before` with each uid `t[k]` updated once, to `dets[k]` at
      `frameId`: its history is the old one with that entry appended, and
      every other object is unchanged. */
  ghost predicate UpdatedOnce(before: Registry, after: Registry, t: seq<int>, dets: seq<Detection>, frameId: int)
    requires before.Inv() && after.Inv() && |after.objects| == |before.objects| && |t| == |dets|
  {
    && (forall u :: 0 <= u < |before.objects| ==>
          |after.history[u]| == |before.history[u]| + (if u in t then 1 else 0))
    && (forall u :: 0 <= u < |before.objects| && u !in t ==>
          after.history[u] == before.history[u] && after.objects[u] == before.objects[u] && after.lastFrame[u] == before.lastFrame[u])
    && (forall k :: 0 <= k < |t| ==>
          && 0 <= t[k] < |before.objects| && after.objects[t[k]] == dets[k] && after.lastFrame[t[k]] == frameId
          && after.history[t[k]] == before.history[t[k]] + [FrameEntry(frameId, dets[k])])
  }

  lemma UpdatedEffect(reg: Registry, obj: Detection, k: nat, frameId: int)
    requires reg.Inv() && k < |reg.objects|
    ensures UpdatedOnce(reg, reg.Updated(obj, k, frameId), [k], [obj], frameId)
  {
  }

  /** With distinct target uids, the history of each target is its old
      history with the entry of its pair appended, its current detection and
      last frame are those of its pair, and every other object is unchanged. */
  lemma {:induction false} ApplyMatchesEffect(reg: Registry, uids: seq<int>, actual: seq<Detection>, resolved: seq<(nat, nat)>, frameId: int)
    requires reg.Inv() && Targets(uids, actual, resolved, |reg.objects|)
    requires NoDup(TargetUids(uids, resolved))
    ensures UpdatedOnce(reg, ApplyMatches(reg, uids, actual, resolved, frameId),
                        TargetUids(uids, resolved), TargetDets(actual, resolved), frameId)
    decreases |resolved|
  {
    if resolved != [] {
      var n := |resolved| - 1;
      TargetsSnoc(uids, actual, resolved, |reg.objects|);
      var t := TargetUids(uids, resolved);
      var d := TargetDets(actual, resolved);
      NoDupSnoc(t);
      ApplyMatchesEffect(reg, uids, actual, resolved[..n], frameId);
      var front := ApplyMatches(reg, uids, actual, resolved[..n], frameId);
      UpdatedEffect(front, d[n], t[n], frameId);
      UpdatedOnceSnoc(reg, front, ApplyMatches(reg, uids, actual, resolved, frameId), t[..n], d[..n], t[n], d[n], frameId);
    }
  }

  /** The targets of all but the last pair are those of the whole, but for
      the last one. */
  lemma TargetsSnoc(uids: seq<int>, actual: seq<Detection>, resolved: seq<(nat, nat)>, count: nat)
    requires Targets(uids, actual, resolved, count) && resolved != []
    ensures var n := |resolved| - 1;
            var t := TargetUids(uids, resolved);
            var d := TargetDets(actual, resolved);
            && Targets(uids, actual, resolved[..n], count)
            && TargetUids(uids, resolved[..n]) == t[..n] && TargetDets(actual, resolved[..n]) == d[..n]
            && t == t[..n] + [t[n]] && d == d[..n] + [d[n]]
            && t[n] == uids[resolved[n].0] && d[n] == actual[resolved[n].1]
  {
  }

  /** A registry updated once at each of `t` and then once more at a new
      uid `x` is updated once at each of `t + [x]`. */
  lemma UpdatedOnceSnoc(reg: Registry, mid: Registry, after: Registry, t: seq<int>, dets: seq<Detection>,
                        x: int, dx: Detection, frameId: int)
    requires reg.Inv() && mid.Inv() && after.Inv()
    requires |mid.objects| == |reg.objects| && |after.objects| == |reg.objects| && |t| == |dets|
    requires UpdatedOnce(reg, mid, t, dets, frameId)
    requires UpdatedOnce(mid, after, [x], [dx], frameId)
    requires x !in t
    ensures UpdatedOnce(reg, after, t + [x], dets + [dx], frameId)
  {
    var t2 := t + [x];
    var d2 := dets + [dx];
    forall u | 0 <= u < |reg.objects|
      ensures |after.history[u]| == |reg.history[u]| + (if u in t2 then 1 else 0)
    {
      assert u in t2 <==> u in t || u == x;
      assert u in [x] <==> u == x;
    }
    forall u | 0 <= u < |reg.objects| && u !in t2
      ensures after.history[u] == reg.history[u] && after.objects[u] == reg.objects[u] && after.lastFrame[u] == reg.lastFrame[u]
    {
      assert u !in t && u !in [x];
    }
    forall k | 0 <= k < |t2|
      ensures && 0 <= t2[k] < |reg.objects| && after.objects[t2[k]] == d2[k] && after.lastFrame[t2[k]] == frameId
              && after.history[t2[k]] == reg.history[t2[k]] + [FrameEntry(frameId, d2[k])]
    {
      if k < |t| {
        assert t2[k] == t[k] && d2[k] == dets[k] && t[k] != x;
        assert t[k] !in [x];
      } else {
        assert [x][0] == x && t2[k] == x && d2[k] == dx;
      }
    }
  }

  /** One more iteration of the `_do_matches` loop. */
  lemma ApplyMatchesStep(reg: Registry, uids: seq<int>, actual: seq<Detection>, resolved: seq<(nat, nat)>, k: nat, frameId: int)
    requires reg.Inv() && Targets(uids, actual, resolved, |reg.objects|) && k < |resolved|
    ensures Targets(uids, actual, resolved[..k], |reg.objects|) && Targets(uids, actual, resolved[..k + 1], |reg.objects|)
    ensures ApplyMatches(reg, uids, actual, resolved[..k + 1], frameId)
         == ApplyMatches(reg, uids, actual, resolved[..k], frameId).Updated(actual[resolved[k].1], uids[resolved[k].0], frameId)
    ensures Seconds(resolved[..k + 1]) == Seconds(resolved[..k]) + [resolved[k].1]
  {
    assert resolved[..k + 1][..k] == resolved[..k];
  }

  /** Updating an active uid succeeds. */
  lemma UpdateActive(reg: Registry, obj: Detection, uid: int, frameId: int)
    requires reg.Inv() && 0 <= uid < |reg.objects| && uid !in reg.unregistered
    ensures reg.Update(obj, uid, frameId) == Ok(reg.Updated(obj, uid, frameId))
  {
  }

  /** What `_do_matches` leaves behind: the registry after the updates, the
      matched current indices it returns, and the uids it updated. */
  datatype Matched = Matched(reg: Registry, done: seq<nat>, updated: seq<int>)

  /** `_do_matches` on the value of the registry. */
  function DoMatchesOf(reg: Registry, frameId: int, actual: seq<Detection>, toleranceSquared: nat): (m: Matched)
    requires reg.Inv()
    ensures m.reg.Inv() && |m.reg.objects| == |m.reg.lastFrame| == |m.reg.history| == |reg.objects|
    ensures m.reg.unregistered == reg.unregistered
  {
    var active := reg.ObjectsWithUid(false);
    if active == [] then Matched(reg, [], [])
    else
      var uids := Firsts(active);
      var resolved := Resolved(ColumnMatches(Seconds(active), actual, toleranceSquared));
      ResolvedTargets(reg, actual, toleranceSquared);
      Matched(ApplyMatches(reg, uids, actual, resolved, frameId), Seconds(resolved), TargetUids(uids, resolved))
  }

  /** The uids `objects_with_uid()` lists are registered positions, not
      unregistered, and ascend. */
  lemma ActiveUids(reg: Registry)
    requires reg.Inv()
    ensures var uids := Firsts(reg.ObjectsWithUid(false));
            && (forall i :: 0 <= i < |uids| ==> 0 <= uids[i] < |reg.objects| && uids[i] !in reg.unregistered)
            && (forall i, j :: 0 <= i < j < |uids| ==> uids[i] < uids[j])
  {
    ZipFilteredSpec(reg.objectsUid, reg.objects, reg.unregistered, 0);
    var r := reg.ObjectsWithUid(false);
    assert r == ZipFiltered(reg.objectsUid, reg.objects, reg.unregistered);
    var uids := Firsts(r);
    assert forall i :: 0 <= i < |uids| ==> uids[i] == r[i].0;
  }

  /** The pairs of `_calculate_matches` index both lists and ascend by
      current index. */
  lemma ColumnMatchesBounds(prev: seq<Detection>, actual: seq<Detection>, toleranceSquared: nat)
    ensures var r := ColumnMatches(prev, actual, toleranceSquared);
            && (forall k :: 0 <= k < |r| ==> r[k].0 < |prev| && r[k].1 < |actual|)
            && (forall k, l :: 0 <= k < l < |r| ==> r[k].1 < r[l].1)
  {
    ColumnMatchesSpec(prev, actual, toleranceSquared);
  }

  /** Resolving keeps pairs in range and current indices ascending. */
  lemma ResolvedBounds(ms: seq<(nat, nat)>, prevCount: nat, actualCount: nat)
    requires forall k :: 0 <= k < |ms| ==> ms[k].0 < prevCount && ms[k].1 < actualCount
    requires forall k, l :: 0 <= k < l < |ms| ==> ms[k].1 < ms[l].1
    ensures var r := Resolved(ms);
            && (forall k :: 0 <= k < |r| ==> r[k].0 < prevCount && r[k].1 < actualCount)
            && (forall k, l :: 0 <= k < l < |r| ==> r[k].1 < r[l].1)
            && NoDup(Firsts(r))
  {
    ResolvedSpec(ms);
    var r := Resolved(ms);
    forall k | 0 <= k < |r|
      ensures r[k].0 < prevCount && r[k].1 < actualCount
    {
      assert r[k] == ms[IndexOf(Firsts(ms), r[k].0)];
    }
    ResolvedSecondsAscending(ms);
  }

  /** The pairs resolved against the active objects name active uids, whose
      positions are valid, and those uids are distinct. */
  lemma ResolvedTargets(reg: Registry, actual: seq<Detection>, toleranceSquared: nat)
    requires reg.Inv() && reg.ObjectsWithUid(false) != []
    ensures var active := reg.ObjectsWithUid(false);
            var uids := Firsts(active);
            var resolved := Resolved(ColumnMatches(Seconds(active), actual, toleranceSquared));
            && Targets(uids, actual, resolved, |reg.objects|)
            && NoDup(TargetUids(uids, resolved))
            && (forall k :: 0 <= k < |resolved| ==> uids[resolved[k].0] !in reg.unregistered)
            && (forall k, l :: 0 <= k < l < |resolved| ==> resolved[k].1 < resolved[l].1)
  {
    var active := reg.ObjectsWithUid(false);
    var uids := Firsts(active);
    var objs := Seconds(active);
    ActiveUids(reg);
    ColumnMatchesBounds(objs, actual, toleranceSquared);
    var ms := ColumnMatches(objs, actual, toleranceSquared);
    ResolvedBounds(ms, |uids|, |actual|);
    var resolved := Resolved(ms);
    var t := TargetUids(uids, resolved);
    forall i, j | 0 <= i < j < |t|
      ensures t[i] != t[j]
    {
      assert Firsts(resolved)[i] != Firsts(resolved)[j];
      var a, b := resolved[i].0, resolved[j].0;
      if a < b {
        assert uids[a] < uids[b];
      } else {
        assert uids[b] < uids[a];
      }
    }
  }

  /** `_do_matches`: nothing changes and nothing is returned when no object is
      active; otherwise each updated uid is active and updated exactly once,
      its history gains exactly the entry of its matched detection, every
      other object is untouched, and the returned current indices ascend,
      are valid, and pair one-to-one with the updated uids. */
  lemma DoMatchesSpec(reg: Registry, frameId: int, actual: seq<Detection>, toleranceSquared: nat)
    requires reg.Inv()
    ensures var m := DoMatchesOf(reg, frameId, actual, toleranceSquared);
            && (reg.ObjectsWithUid(false) == [] ==> m == Matched(reg, [], []))
            && |m.updated| == |m.done|
            && NoDup(m.updated)
            && (forall k :: 0 <= k < |m.updated| ==>
                  0 <= m.updated[k] < |reg.objects| && m.updated[k] !in reg.unregistered && m.done[k] < |actual|
                  && m.reg.objects[m.updated[k]] == actual[m.done[k]] && m.reg.lastFrame[m.updated[k]] == frameId
                  && m.reg.history[m.updated[k]] == reg.history[m.updated[k]] + [FrameEntry(frameId, actual[m.done[k]])])
            && (forall k, l :: 0 <= k < l < |m.done| ==> m.done[k] < m.done[l])
            && (forall u :: 0 <= u < |reg.objects| ==>
                  |m.reg.history[u]| == |reg.history[u]| + (if u in m.updated then 1 else 0))
            && (forall u :: 0 <= u < |reg.objects| && u !in m.updated ==>
                  m.reg.history[u] == reg.history[u] && m.reg.objects[u] == reg.objects[u])
            && HistoryEntries(m.reg.history) == HistoryEntries(reg.history) + |m.done|
  {
    var active := reg.ObjectsWithUid(false);
    if active != [] {
      var uids := Firsts(active);
      var resolved := Resolved(ColumnMatches(Seconds(active), actual, toleranceSquared));
      ResolvedTargets(reg, actual, toleranceSquared);
      ApplyMatchesEffect(reg, uids, actual, resolved, frameId);
      ApplyMatchesEntries(reg, uids, actual, resolved, frameId);
    }
  }

  /** `_register_not_matched_objects` over the first `n` detections. */
  function RegisterUnmatched(reg: Registry, frameId: int, actual: seq<Detection>, matched: seq<nat>, n: nat): (r: Registry)
    requires n <= |actual|
  {
    if n == 0 then reg
    else
      var front := RegisterUnmatched(reg, frameId, actual, matched, n - 1);
      if n - 1 in matched then front else front.Registered(actual[n - 1], frameId)
  }

  /** `reg` after registering each of `added`, in order, at `frameId`: the
      new objects take the next uids, their last frame is `frameId`, and each
      history is the single entry of its detection. */
  function RegisteredAll(reg: Registry, added: seq<Detection>, frameId: int): Registry
  {
    reg.(objects := reg.objects + added,
         objectsUid := reg.objectsUid + seq(|added|, k => reg.nextUid + k),
         lastFrame := reg.lastFrame + seq(|added|, _ => frameId),
         history := reg.history + FirstEntries(added, frameId),
         nextUid := reg.nextUid + |added|)
  }

  /** The one-entry histories of newly registered detections. */
  function FirstEntries(added: seq<Detection>, frameId: int): (r: seq<seq<FrameEntry>>)
    ensures |r| == |added| && forall k :: 0 <= k < |added| ==> r[k] == [FrameEntry(frameId, added[k])]
  {
    seq(|added|, k requires 0 <= k < |added| => [FrameEntry(frameId, added[k])])
  }

  lemma RegisteredAllSnoc(reg: Registry, added: seq<Detection>, obj: Detection, frameId: int)
    ensures RegisteredAll(reg, added, frameId).Registered(obj, frameId) == RegisteredAll(reg, added + [obj], frameId)
  {
    var m := |added|;
    var added' := added + [obj];
    assert seq(m, k => reg.nextUid + k) + [reg.nextUid + m] == seq(m + 1, k => reg.nextUid + k);
    assert seq(m, _ => frameId) + [frameId] == seq(m + 1, _ => frameId);
    assert FirstEntries(added, frameId) + [[FrameEntry(frameId, obj)]] == FirstEntries(added', frameId);
  }

  /** `_register_not_matched_objects` registers, in order, exactly the
      detections whose index is not matched, and touches nothing else. */
  lemma {:induction false} RegisterUnmatchedAll(reg: Registry, frameId: int, actual: seq<Detection>, matched: seq<nat>, n: nat)
    requires n <= |actual|
    ensures RegisterUnmatched(reg, frameId, actual, matched, n) == RegisteredAll(reg, Unmatched(actual, matched, n), frameId)
  {
    if n == 0 {
      assert RegisteredAll(reg, [], frameId) == reg;
    } else {
      RegisterUnmatchedAll(reg, frameId, actual, matched, n - 1);
      if n - 1 !in matched {
        RegisteredAllSnoc(reg, Unmatched(actual, matched, n - 1), actual[n - 1], frameId);
      }
    }
  }

  /** Registering keeps the registry invariant and adds one history entry
      per registered detection. */
  lemma RegisteredAllSpec(reg: Registry, added: seq<Detection>, frameId: int)
    requires reg.Inv()
    ensures RegisteredAll(reg, added, frameId).Inv()
    ensures HistoryEntries(RegisteredAll(reg, added, frameId).history) == HistoryEntries(reg.history) + |added|
  {
    RegisteredAllEntries(reg.history, added, frameId);
  }

  lemma {:induction false} RegisteredAllEntries(h: seq<seq<FrameEntry>>, added: seq<Detection>, frameId: int)
    ensures HistoryEntries(h + FirstEntries(added, frameId)) == HistoryEntries(h) + |added|
  {
    if added == [] {
      assert h + FirstEntries(added, frameId) == h;
    } else {
      var m := |added| - 1;
      RegisteredAllEntries(h, added[..m], frameId);
      var last := [FrameEntry(frameId, added[m])];
      assert FirstEntries(added, frameId) == FirstEntries(added[..m], frameId) + [last];
      assert h + FirstEntries(added, frameId) == (h + FirstEntries(added[..m], frameId)) + [last];
      HistoryEntriesSnoc(h + FirstEntries(added[..m], frameId), last);
    }
  }

  /** One iteration of the frame loop of `_algorithm`: match, register,
      unregister. */
  function LinearFrame(reg: Registry, frameId: int, actual: seq<Detection>, toleranceSquared: nat): (r: Registry)
    requires reg.Inv()
    ensures r.Inv()
  {
    var m := DoMatchesOf(reg, frameId, actual, toleranceSquared);
    RegisterUnmatchedAll(m.reg, frameId, actual, m.done, |actual|);
    RegisteredAllSpec(m.reg, Unmatched(actual, m.done, |actual|), frameId);
    var registered := RegisterUnmatched(m.reg, frameId, actual, m.done, |actual|);
    UnregisterDisappearedInv(registered, frameId);
    registered.UnregisterDisappeared(frameId)
  }

  /** Each frame records every one of its detections exactly once: as an
      update of a matched object or as a new object. */
  lemma LinearFrameEntries(reg: Registry, frameId: int, actual: seq<Detection>, toleranceSquared: nat)
    requires reg.Inv()
    ensures HistoryEntries(LinearFrame(reg, frameId, actual, toleranceSquared).history) == HistoryEntries(reg.history) + |actual|
    ensures var m := DoMatchesOf(reg, frameId, actual, toleranceSquared);
            |LinearFrame(reg, frameId, actual, toleranceSquared).objects| == |reg.objects| + |actual| - |m.done|
  {
    var m := DoMatchesOf(reg, frameId, actual, toleranceSquared);
    DoMatchesSpec(reg, frameId, actual, toleranceSquared);
    RegisterUnmatchedAll(m.reg, frameId, actual, m.done, |actual|);
    RegisteredAllSpec(m.reg, Unmatched(actual, m.done, |actual|), frameId);
    CountNotInDistinct(|actual|, m.done);
  }

  /** The registry after `_algorithm` has processed frames `0 .. n - 1`:
      frame 0 registers all its detections, and every later frame runs
      `LinearFrame`. */
  function LinearRun(reg: Registry, cfg: TrackerConfig, toleranceSquared: nat, n: nat): (r: Registry)
    requires reg.Inv() && ValidConfig(cfg) && 1 <= n <= cfg.sequenceLength
    ensures r.Inv()
  {
    if n == 1 then
      var initial := ObjectsInFrame(cfg, 0);
      RegisterUnmatchedAll(reg, 0, initial, [], |initial|);
      RegisteredAllSpec(reg, Unmatched(initial, [], |initial|), 0);
      RegisterUnmatched(reg, 0, initial, [], |initial|)
    else
      LinearFrame(LinearRun(reg, cfg, toleranceSquared, n - 1), n - 1, ObjectsInFrame(cfg, n - 1), toleranceSquared)
  }

  /** Frame 0 registers each of its detections as a new object without
      matching, and over a run every detection of every frame is recorded
      in exactly one history entry. */
  lemma {:induction false} LinearRunSpec(reg: Registry, cfg: TrackerConfig, toleranceSquared: nat, n: nat)
    requires reg.Inv() && ValidConfig(cfg) && 1 <= n <= cfg.sequenceLength
    ensures LinearRun(reg, cfg, toleranceSquared, 1).objects == reg.objects + ObjectsInFrame(cfg, 0)
    ensures HistoryEntries(LinearRun(reg, cfg, toleranceSquared, n).history) == HistoryEntries(reg.history) + DetectionsUpTo(cfg, n)
  {
    var initial := ObjectsInFrame(cfg, 0);
    RegisterUnmatchedAll(reg, 0, initial, [], |initial|);
    RegisteredAllSpec(reg, Unmatched(initial, [], |initial|), 0);
    UnmatchedNone(initial, |initial|);
    assert initial[..|initial|] == initial;
    CountNotInDistinct(|initial|, []);
    DetectionsUpToStep(cfg, n);
    if n > 1 {
      LinearRunSpec(reg, cfg, toleranceSquared, n - 1);
      LinearFrameEntries(LinearRun(reg, cfg, toleranceSquared, n - 1), n - 1, ObjectsInFrame(cfg, n - 1), toleranceSquared);
    }
  }

  class CentroidLinearTracker {
    const config: TrackerConfig
    /** The square of `_distance_tolerance()`, rounded up. */
    const toleranceSquared: nat
    const registry: ObjectsRegistered

    ghost predicate Valid()
      reads this, registry
    {
      ValidConfig(config) && registry.Valid()
    }

    /** The engine's constructor, past its checks, with an empty registry;
        the tolerance is `_distance_tolerance` of the frame size and factor,
        squared and rounded up. */
    constructor (cfg: TrackerConfig, frameWidth: nat, frameHeight: nat, distanceToleranceFactor: real)
      requires ValidConfig(cfg)
      ensures Valid() && fresh(registry)
      ensures config == cfg
      ensures toleranceSquared == ToleranceSquared(DistanceTolerance(frameWidth, frameHeight, distanceToleranceFactor))
      ensures registry.Value() == EmptyRegistry(cfg.framesToUnregister)
    {
      config := cfg;
      toleranceSquared := ToleranceSquared(DistanceTolerance(frameWidth, frameHeight, distanceToleranceFactor));
      registry := new ObjectsRegistered(cfg.framesToUnregister);
    }

    /** `_register_initial_objects`. */
    method RegisterInitialObjects()
      requires Valid() && config.sequenceLength > 0
      modifies registry
      ensures Valid()
      ensures registry.Value() == LinearRun(old(registry.Value()), config, toleranceSquared, 1)
    {
      var objectsInitial := ObjectsInFrame(config, 0);
      RegisterNotMatchedObjects(0, objectsInitial, []);
    }

    /** `_do_matches`. */
    method DoMatches(frameActual: int, objectsActual: seq<Detection>) returns (matchesDone: seq<nat>)
      requires Valid()
      modifies registry
      ensures Valid()
      ensures var m := DoMatchesOf(old(registry.Value()), frameActual, objectsActual, toleranceSquared);
              registry.Value() == m.reg && matchesDone == m.done
    {
      ghost var before := registry.Value();
      matchesDone := [];
      var active := registry.Value().ObjectsWithUid(false);
      if active != [] {
        var uids, objs := Firsts(active), Seconds(active);
        var matches := CalculateMatches(objs, objectsActual, toleranceSquared);
        ColumnMatchesBounds(objs, objectsActual, toleranceSquared);
        var resolved := ResolveMatches(matches, |objs|);
        ResolvedTargets(before, objectsActual, toleranceSquared);
        for k := 0 to |resolved|
          invariant registry.Valid()
          invariant Targets(uids, objectsActual, resolved[..k], |before.objects|)
          invariant registry.Value() == ApplyMatches(before, uids, objectsActual, resolved[..k], frameActual)
          invariant matchesDone == Seconds(resolved[..k])
        {
          ApplyMatchesStep(before, uids, objectsActual, resolved, k, frameActual);
          var (i, j) := resolved[k];
          var objUid := uids[i];
          UpdateActive(registry.Value(), objectsActual[j], objUid, frameActual);
          var r := registry.UpdateObject(objectsActual[j], objUid, frameActual);
          assert r == Pass;
          matchesDone := matchesDone + [j];
        }
        assert resolved[..|resolved|] == resolved;
      }
    }

    /** `_register_not_matched_objects`. */
    method RegisterNotMatchedObjects(frameActual: int, objectsActual: seq<Detection>, matchedObjectsIds: seq<nat>)
      requires Valid()
      modifies registry
      ensures Valid()
      ensures registry.Value() == RegisterUnmatched(old(registry.Value()), frameActual, objectsActual, matchedObjectsIds, |objectsActual|)
    {
      ghost var before := registry.Value();
      for objId := 0 to |objectsActual|
        invariant registry.Valid()
        invariant registry.Value() == RegisterUnmatched(before, frameActual, objectsActual, matchedObjectsIds, objId)
      {
        if objId !in matchedObjectsIds {
          registry.RegisterObject(objectsActual[objId], frameActual);
        }
      }
    }

    /** `_algorithm` (and `run`): fails only when the sequence has no frame 0;
        otherwise leaves the registry of `LinearRun` over all frames. */
    method Algorithm() returns (r: Outcome)
      requires Valid()
      modifies registry
      ensures Valid()
      ensures r.Fail? <==> config.sequenceLength == 0
      ensures r.Pass? ==> registry.Value() == LinearRun(old(registry.Value()), config, toleranceSquared, config.sequenceLength)
    {
      if config.sequenceLength == 0 {
        return Fail(IndexOutOfRange(0));
      }
      ghost var before := registry.Value();
      RegisterInitialObjects();
      for frameProcessing := 1 to config.sequenceLength
        invariant Valid()
        invariant registry.Value() == LinearRun(before, config, toleranceSquared, frameProcessing)
      {
        var objectsActual := ObjectsInFrame(config, frameProcessing);
        var objectsMatched := DoMatches(frameProcessing, objectsActual);
        RegisterNotMatchedObjects(frameProcessing, objectsActual, objectsMatched);
        registry.UnregisterDisappearedObjects(frameProcessing);
      }
      r := Pass;
    }
  }
}
