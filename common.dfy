/** Shared vocabulary of the tracking engine: the opaque detection value, the
    integer geometry that stands in for Euclidean distance, the error values the
    registries raise, and the Python list primitives (indexing with negative
    indices, `list.index`, `min`, `np.argmin`) that the tracking code relies on. */
module Common {

  datatype Option<T> = None | Some(value: T)

  /** What a Python call that either returns normally or raises ends in. */
  datatype Outcome = Pass | Fail(error: Error)

  /** A value, or the exception a Python call raises instead of returning it. */
  datatype Result<T> = Ok(value: T) | Err(error: Error)

  datatype Error =
    | NotRegistered(uid: int)        // SimpleObjectTrackingException of update_object
    | IndexOutOfRange(index: int)    // IndexError raised by a Python list
    | AlreadyUnregistered(uid: int)  // AssertionError of ObjectsRegistered.update_object
    | NoDetectionSource              // first AssertionError of ObjectTracker.__init__
    | LengthMismatch                 // second AssertionError of ObjectTracker.__init__

  /** A centroid in pixel coordinates. */
  datatype Point = Point(x: int, y: int)

  /** A detection produced by the (external) object detector. Only the centre
      takes part in tracking; score and class name are read by the filter chain. */
  datatype Detection = Detection(center: Point, score: int, kind: string)

  /** Squared Euclidean distance between two centroids. Comparing squared
      distances against a squared tolerance orders and thresholds pairs exactly
      as comparing Euclidean distances against the tolerance does. */
  function Dist2(p: Point, q: Point): (d: nat)
    ensures d == 0 <==> p == q
  {
    var dx := p.x - q.x;
    var dy := p.y - q.y;
    SquareZero(dx);
    SquareZero(dy);
    dx * dx + dy * dy
  }

  lemma SquareZero(a: int)
    ensures a * a >= 0
    ensures a * a == 0 <==> a == 0
  {
    if a < 0 {
      assert a * a == (-a) * (-a);
    }
  }

  /** Squaring preserves the non-strict order of non-negative reals: a
      Euclidean distance is at most a bound exactly when its square is at most
      the bound's square. */
  lemma SquareLe(d: real, m: real)
    requires 0.0 <= d && 0.0 <= m
    ensures d <= m <==> d * d <= m * m
  {
    SquareLt(m, d);
  }

  /** Squaring preserves the strict order of non-negative reals. */
  lemma SquareLt(d: real, m: real)
    requires 0.0 <= d && 0.0 <= m
    ensures d < m <==> d * d < m * m
  {
    SquareDiff(d, m);
    ProductSign(m - d, m + d);
    if d < m {
      assert 0.0 < (m - d) * (m + d);
    } else {
      assert (m - d) * (m + d) <= 0.0;
    }
  }

  /** The difference of two squares, as a product. */
  lemma SquareDiff(d: real, m: real)
    ensures m * m - d * d == (m - d) * (m + d)
  {
  }

  /** Multiplying by a non-negative real keeps the order. */
  lemma RealMulLe(a: real, b: real, c: real)
    requires a <= b && 0.0 <= c
    ensures a * c <= b * c
  {
  }

  /** The sign of a product with a non-negative factor. */
  lemma ProductSign(a: real, b: real)
    requires 0.0 <= b
    ensures 0.0 < a && 0.0 < b ==> 0.0 < a * b
    ensures a <= 0.0 ==> a * b <= 0.0
  {
  }

  /** Position that Python's `s[i]` reads in a list of length `n`: negative
      indices count from the end; anything outside [-n, n) raises IndexError. */
  function PyIndex(i: int, n: nat): (r: Option<nat>)
    ensures r.Some? <==> -(n as int) <= i < n
    ensures r.Some? ==> r.value < n && r.value as int == (if i < 0 then n + i else i)
  {
    if 0 <= i < n then Some(i)
    else if -(n as int) <= i < 0 then Some(n + i)
    else None
  }

  /** Start position of the Python slice `s[i:]` on a list of length `n`. */
  function PySliceStart(i: int, n: nat): (r: nat)
    ensures r <= n
    ensures 0 <= i <= n ==> r == i
    ensures i > n ==> r == n
    ensures -(n as int) <= i < 0 ==> r == n + i
    ensures i < -(n as int) ==> r == 0
  {
    if i < 0 then (if n + i < 0 then 0 else n + i)
    else if i > n then n
    else i
  }

  predicate NoDup<T(==)>(s: seq<T>)
  {
    forall i, j :: 0 <= i < j < |s| ==> s[i] != s[j]
  }

  /** `s.index(x)` of a Python list: the first position holding `x`, or `|s|`
      where Python raises ValueError. */
  function IndexOf<T(==)>(s: seq<T>, x: T): (k: nat)
    ensures k <= |s|
    ensures k < |s| ==> s[k] == x
    ensures forall i :: 0 <= i < k ==> s[i] != x
    ensures k == |s| <==> x !in s
  {
    if |s| == 0 then 0
    else if s[0] == x then 0
    else 1 + IndexOf(s[1..], x)
  }

  /** Without duplicates, the last element is not among the others, which
      have no duplicates either. */
  lemma NoDupSnoc<T>(s: seq<T>)
    requires NoDup(s) && s != []
    ensures NoDup(s[..|s| - 1]) && s[|s| - 1] !in s[..|s| - 1]
  {
    var f := s[..|s| - 1];
    forall i, j | 0 <= i < j < |f|
      ensures f[i] != f[j]
    {
      assert f[i] == s[i] && f[j] == s[j];
    }
    forall i | 0 <= i < |f|
      ensures f[i] != s[|s| - 1]
    {
      assert f[i] == s[i];
    }
  }

  /** Appending an element does not move the first occurrence of one
      already present. */
  lemma IndexOfSnoc<T>(s: seq<T>, y: T, x: T)
    ensures x in s ==> IndexOf(s + [y], x) == IndexOf(s, x)
    ensures x !in s && x == y ==> IndexOf(s + [y], x) == |s|
  {
    var k := IndexOf(s + [y], x);
    if x in s {
      var j := IndexOf(s, x);
      assert (s + [y])[j] == x;
    }
  }

  /** `min(s)` of a non-empty Python list. */
  function MinOf(s: seq<int>): (m: int)
    requires |s| > 0
    ensures m in s
    ensures forall i :: 0 <= i < |s| ==> m <= s[i]
  {
    if |s| == 1 then s[0]
    else
      var m := MinOf(s[..|s| - 1]);
      assert forall i :: 0 <= i < |s| - 1 ==> s[..|s| - 1][i] == s[i];
      if s[|s| - 1] < m then s[|s| - 1] else m
  }

  /** `np.argmin(s)`: the first position of a minimal element. */
  function ArgMin(s: seq<int>): (k: nat)
    requires |s| > 0
    ensures k < |s|
    ensures forall i :: 0 <= i < |s| ==> s[k] <= s[i]
    ensures forall i :: 0 <= i < k ==> s[k] < s[i]
  {
    if |s| == 1 then 0
    else
      var k := ArgMin(s[..|s| - 1]);
      assert forall i :: 0 <= i < |s| - 1 ==> s[..|s| - 1][i] == s[i];
      if s[|s| - 1] < s[k] then |s| - 1 else k
  }

  /** The two ways the trackers find their nearest candidate agree:
      `distances.index(min(distances))` is `np.argmin(distances)`. */
  lemma IndexOfMinIsArgMin(s: seq<int>)
    requires |s| > 0
    ensures IndexOf(s, MinOf(s)) == ArgMin(s)
  {
    var k := ArgMin(s);
    var m := MinOf(s);
    assert s[k] == m;
  }

  /** Number of positions in [0, n) that do not occur in `s`. */
  function CountNotIn(n: nat, s: seq<nat>): (c: nat)
    ensures c <= n
  {
    if n == 0 then 0
    else CountNotIn(n - 1, s) + (if n - 1 in s then 0 else 1)
  }

  /** If `s` lists distinct positions below `n`, exactly `n - |s|` positions
      below `n` are missing from it. */
  lemma {:induction false} CountNotInDistinct(n: nat, s: seq<nat>)
    requires NoDup(s)
    requires forall i :: 0 <= i < |s| ==> s[i] < n
    ensures CountNotIn(n, s) == n - |s|
  {
    if s != [] {
      assert s[0] < n;
    }
    if n == 0 {
    } else if n - 1 in s {
      var k := IndexOf(s, n - 1);
      var t := s[..k] + s[k + 1..];
      DropTop(n, s, k);
      CountNotInDistinct(n - 1, t);
      CountNotInSame(n - 1, s, t);
    } else {
      forall i | 0 <= i < |s|
        ensures s[i] < n - 1
      {
        assert s[i] != n - 1;
      }
      CountNotInDistinct(n - 1, s);
    }
  }

  /** Taking the top position `n - 1` out of distinct positions below `n`
      leaves distinct positions below `n - 1`, the same ones as before. */
  lemma DropTop(n: nat, s: seq<nat>, k: nat)
    requires NoDup(s) && k < |s| && s[k] == n - 1
    requires forall i :: 0 <= i < |s| ==> s[i] < n
    ensures var t := s[..k] + s[k + 1..];
            && |t| == |s| - 1 && NoDup(t)
            && (forall i :: 0 <= i < |t| ==> t[i] < n - 1)
            && (forall x :: 0 <= x < n - 1 ==> (x in s <==> x in t))
  {
    var t := s[..k] + s[k + 1..];
    assert forall i :: 0 <= i < |t| ==> t[i] == s[if i < k then i else i + 1];
    forall i | 0 <= i < |t|
      ensures t[i] < n - 1
    {
      var a := if i < k then i else i + 1;
      assert a != k && t[i] == s[a];
    }
    forall i, j | 0 <= i < j < |t|
      ensures t[i] != t[j]
    {
      var a := if i < k then i else i + 1;
      var b := if j < k then j else j + 1;
      assert a < b && t[i] == s[a] && t[j] == s[b];
    }
    forall x | 0 <= x < n - 1 && x in s
      ensures x in t
    {
      var j := IndexOf(s, x);
      assert j != k;
      assert t[if j < k then j else j - 1] == x;
    }
  }

  /** Membership below `n` is all that `CountNotIn` looks at. */
  lemma {:induction false} CountNotInSame(n: nat, s: seq<nat>, t: seq<nat>)
    requires forall x :: 0 <= x < n ==> (x in s <==> x in t)
    ensures CountNotIn(n, s) == CountNotIn(n, t)
  {
    if n > 0 {
      CountNotInSame(n - 1, s, t);
    }
  }

  /** The detections among the first `n` whose index is not in `matched`, in
      index order. */
  function Unmatched(actual: seq<Detection>, matched: seq<nat>, n: nat): (r: seq<Detection>)
    requires n <= |actual|
    ensures |r| == CountNotIn(n, matched)
  {
    if n == 0 then []
    else Unmatched(actual, matched, n - 1) + (if n - 1 in matched then [] else [actual[n - 1]])
  }

  /** With nothing matched, every detection is left over, in order. */
  lemma {:induction false} UnmatchedNone(actual: seq<Detection>, n: nat)
    requires n <= |actual|
    ensures Unmatched(actual, [], n) == actual[..n]
  {
    if n > 0 {
      UnmatchedNone(actual, n - 1);
      assert actual[..n] == actual[..n - 1] + [actual[n - 1]];
    }
  }
}
