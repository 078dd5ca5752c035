/**
 * The floating text projected from the previous room's gaze points: at most
 * twenty of them are kept, each pulled slightly towards the fixed look-at
 * point and sized by the current floor.
 */
module LogProjection {
  import opened Wrappers
  import opened Geometry

  /** Above this many gaze points the list is thinned. */
  const MaxProjections: nat := 20

  /** The point every projection faces and is pulled towards. */
  const LookAt: Vec3 := Vec3(0.0, 1.7, 0.0)

  /** The fraction of the way each projection is moved towards `LookAt`. */
  const Pull: real := 0.05

  /** One projected text: where it stands, its font size, what it faces and its list key. */
  datatype Projection = Projection(pos: Vec3, size: real, lookAt: Vec3, key: nat)

  /** `Math.ceil(n / 20)`: the stride with which an over-long gaze list is thinned. */
  function Stride(n: nat): (k: nat)
    ensures n > 0 ==> k > 0
    ensures (k - 1) * MaxProjections < n <= k * MaxProjections
  {
    (n + MaxProjections - 1) / MaxProjections
  }

  /**
   * `s.filter((_, i) => i % k === 0)` from index `i` on: the elements of `s`
   * at positions `i..|s|-1` that are multiples of `k`, in order.
   */
  function KeepMultiples(s: seq<Vec3>, k: nat, i: nat): (r: seq<Vec3>)
    requires k > 0
    ensures i <= |s| ==> |r| <= |s| - i
    ensures i < |s| && i % k == 0 ==> |r| > 0 && r[0] == s[i]
    decreases |s| - i
  {
    if i >= |s| then []
    else (if i % k == 0 then [s[i]] else []) + KeepMultiples(s, k, i + 1)
  }

  /** The thinned gaze list: unchanged up to twenty points, otherwise every `Stride(n)`-th point. */
  function Thin(points: seq<Vec3>): (r: seq<Vec3>)
    ensures |r| <= |points|
    ensures |points| > 0 ==> |r| > 0 && r[0] == points[0]
  {
    if |points| > MaxProjections then KeepMultiples(points, Stride(|points|), 0) else points
  }

  /** The font size of every projection on a floor. */
  function FontSize(floor: int): (size: real)
    ensures floor >= 1 ==> size >= 0.25
  {
    0.2 + floor as real * 0.05
  }

  /** A gaze point moved 5% of the way towards `LookAt` (`pos.lerp(lookAt, 0.05)`). */
  function PullTowardLookAt(point: Vec3): (r: Vec3)
    ensures point == LookAt ==> r == LookAt
    ensures point != LookAt ==> r != point
  {
    LerpVec(point, LookAt, Pull)
  }

  /**
   * The `useMemo` body: no projections for missing or empty gaze logs,
   * otherwise one per thinned point, keyed by its position in the thinned
   * list. There are never more than twenty.
   */
  function Projections(gazeLogs: Option<seq<Vec3>>, floor: int): (r: seq<Projection>)
    ensures gazeLogs.None? || |gazeLogs.value| == 0 ==> r == []
    ensures gazeLogs.Some? ==> |r| == |Thin(gazeLogs.value)|
    ensures |r| <= MaxProjections
    ensures forall i :: 0 <= i < |r| ==>
      r[i].key == i && r[i].size == FontSize(floor) && r[i].lookAt == LookAt &&
      r[i].pos == PullTowardLookAt(Thin(gazeLogs.value)[i])
  {
    if gazeLogs.None? || |gazeLogs.value| == 0 then []
    else
      var logs := Thin(gazeLogs.value);
      ThinSpec(gazeLogs.value);
      seq(|logs|, i requires 0 <= i < |logs| => Projection(PullTowardLookAt(logs[i]), FontSize(floor), LookAt, i))
  }

  /** Euclidean remainder is determined by any decomposition `x == a * k + r` with `0 <= r < k`. */
  lemma ModUnique(x: int, a: int, k: nat, r: int)
    requires k > 0 && 0 <= r < k && x == a * k + r
    ensures x % k == r
  {
    var d, m := x / k, x % k;
    assert x == d * k + m;
    assert (a - d) * k == m - r;
    if a - d >= 1 {
      MulAtLeast(a - d, k);
    } else if d - a >= 1 {
      MulAtLeast(d - a, k);
    }
  }

  lemma MulAtLeast(m: int, k: nat)
    requires m >= 1
    ensures m * k >= k
  {
  }

  lemma MulMonotone(a: int, b: int, k: nat)
    requires a >= b
    ensures a * k >= b * k
  {
    assert a * k - b * k == (a - b) * k;
  }

  /** One more stride: `b + k + (j - 1) * k == b + j * k`. */
  lemma StrideStep(b: int, k: int, j: int)
    ensures b + k + (j - 1) * k == b + j * k
  {
  }

  /** Between two consecutive multiples of `k` nothing is kept. */
  lemma {:induction false} SkipGap(s: seq<Vec3>, k: nat, b: nat, d: nat)
    requires k > 0 && b % k == 0 && 1 <= d <= k
    ensures KeepMultiples(s, k, b + 1) == KeepMultiples(s, k, b + d)
    decreases d
  {
    if d > 1 {
      SkipGap(s, k, b, d - 1);
      var i := b + d - 1;
      DivExact(b, k);
      ModUnique(i, b / k, k, d - 1);
      if i < |s| {
        assert KeepMultiples(s, k, i) == [] + KeepMultiples(s, k, i + 1);
      }
    }
  }

  /** At a multiple `b` of `k` the point is kept and the next candidate is `b + k`. */
  lemma KeepMultiplesStep(s: seq<Vec3>, k: nat, b: nat)
    requires k > 0 && b % k == 0 && b < |s|
    ensures KeepMultiples(s, k, b) == [s[b]] + KeepMultiples(s, k, b + k)
    ensures (b + k) % k == 0
  {
    SkipGap(s, k, b, k);
    ModUnique(b + k, b / k + 1, k, 0);
  }

  /** From a multiple `b` of `k` on, kept point `j` is the point at `b + j * k`. */
  lemma {:induction false} KeepMultiplesAt(s: seq<Vec3>, k: nat, b: nat)
    requires k > 0 && b % k == 0
    ensures var r := KeepMultiples(s, k, b);
      forall j :: 0 <= j < |r| ==> b + j * k < |s| && r[j] == s[b + j * k]
    decreases |s| - b
  {
    var r := KeepMultiples(s, k, b);
    if b < |s| {
      KeepMultiplesStep(s, k, b);
      var rest := KeepMultiples(s, k, b + k);
      KeepMultiplesAt(s, k, b + k);
      forall j | 0 <= j < |r|
        ensures b + j * k < |s| && r[j] == s[b + j * k]
      {
        if j > 0 {
          assert r[j] == rest[j - 1];
          StrideStep(b, k, j);
        }
      }
    }
  }

  /** From a multiple `b` of `k` on, the kept points reach every multiple below `|s|` and no further. */
  lemma {:induction false} KeepMultiplesLength(s: seq<Vec3>, k: nat, b: nat)
    requires k > 0 && b % k == 0
    ensures var n := |KeepMultiples(s, k, b)|;
      b + n * k >= |s| && (n > 0 ==> b + (n - 1) * k < |s|)
    decreases |s| - b
  {
    if b < |s| {
      KeepMultiplesStep(s, k, b);
      var m := |KeepMultiples(s, k, b + k)|;
      KeepMultiplesLength(s, k, b + k);
      StrideStep(b, k, m + 1);
      if m > 0 {
        StrideStep(b, k, m);
      }
    }
  }

  /** `(n - 1) * k < m * k` with `m` fixed forces `n <= m`. */
  lemma ProductBound(n: int, m: int, k: nat)
    requires k > 0 && (n - 1) * k < m * k
    ensures n <= m
  {
    if n > m {
      MulAtLeast(n - m, k);
    }
  }

  /**
   * Thinning a list of more than twenty points with stride `k`: the kept
   * points are those at the multiples of `k`, in order, and there are at
   * most twenty of them.
   */
  lemma ThinLong(points: seq<Vec3>)
    requires |points| > MaxProjections
    ensures var r := Thin(points);
      var k := Stride(|points|);
      k > 0 &&
      |r| <= MaxProjections &&
      (forall j :: 0 <= j < |r| ==> j * k < |points| && r[j] == points[j * k]) &&
      |r| * k >= |points|
  {
    var n := |points|;
    var k := Stride(n);
    var r := Thin(points);
    KeepMultiplesAt(points, k, 0);
    KeepMultiplesLength(points, k, 0);
    assert r == KeepMultiples(points, k, 0);
    assert forall j :: 0 <= j < |r| ==> 0 + j * k == j * k;
    assert |r| > 0;
    assert (|r| - 1) * k < n <= MaxProjections * k;
    ProductBound(|r|, MaxProjections, k);
  }

  /** Every point at a multiple `i` of the stride is kept, as element `i / k` of the thinned list. */
  lemma ThinKeepsEveryMultiple(points: seq<Vec3>, i: nat)
    requires |points| > MaxProjections
    requires i < |points| && i % Stride(|points|) == 0
    ensures i / Stride(|points|) < |Thin(points)|
    ensures Thin(points)[i / Stride(|points|)] == points[i]
  {
    var k := Stride(|points|);
    var r := Thin(points);
    ThinLong(points);
    var q := i / k;
    DivExact(i, k);
    IndexBelow(q, |r|, k, |points|);
    assert r[q] == points[q * k];
  }

  /** A multiple of `k` is its quotient times `k`. */
  lemma DivExact(i: int, k: nat)
    requires k > 0 && i % k == 0
    ensures i == (i / k) * k
  {
  }

  /** `q * k < n <= m * k` forces `q < m`. */
  lemma IndexBelow(q: int, m: int, k: nat, n: int)
    requires q * k < n <= m * k
    ensures q < m
  {
    if q >= m {
      MulMonotone(q, m, k);
    }
  }

  /**
   * What the thinning guarantees: at most twenty points; nothing dropped up
   * to twenty; beyond that, the kept points are the points at the multiples
   * of the stride, in order, and every such point is kept; so the first
   * point always is.
   */
  lemma ThinSpec(points: seq<Vec3>)
    ensures var r := Thin(points);
      |r| <= MaxProjections &&
      (|points| <= MaxProjections ==> r == points) &&
      (|points| > 0 ==> |r| > 0 && r[0] == points[0]) &&
      (|points| > MaxProjections ==>
        var k := Stride(|points|);
        (forall j :: 0 <= j < |r| ==> j * k < |points| && r[j] == points[j * k]) &&
        (forall i :: 0 <= i < |points| && i % k == 0 ==> i / k < |r| && r[i / k] == points[i]))
  {
    var n := |points|;
    if n > MaxProjections {
      var k := Stride(n);
      ThinLong(points);
      forall i | 0 <= i < n && i % k == 0
        ensures i / k < |Thin(points)| && Thin(points)[i / k] == points[i]
      {
        ThinKeepsEveryMultiple(points, i);
      }
      ThinKeepsEveryMultiple(points, 0);
    }
  }

  /** The font size grows strictly with the floor. */
  lemma FontSizeIncreasing(f1: int, f2: int)
    requires f1 < f2
    ensures FontSize(f1) < FontSize(f2)
  {
  }

  /** Each projection closes 5% of its gaze point's offset to `LookAt`: 95% of it remains. */
  lemma PullIsFivePercent(point: Vec3)
    ensures var p := PullTowardLookAt(point);
      LookAt.x - p.x == 0.95 * (LookAt.x - point.x) &&
      LookAt.y - p.y == 0.95 * (LookAt.y - point.y) &&
      LookAt.z - p.z == 0.95 * (LookAt.z - point.z)
  {
    LerpVecRemaining(point, LookAt, Pull);
  }
}
