/** The canvas of canvas.cc: pixel.x * pixel.y cells, each holding a palette
    colour id drawn from the bucket table. The normal samples the source
    draws from std::normal_distribution are an input, one per cell, and the
    bucket arithmetic is done on exact reals. */
module Canvases {
  import opened Types
  import opened Ranges

  /** Half-width of the sampled amplitude range (NORMAL_DIST_RANGE). */
  const DistRange: real := 11.5

  /** std::fabs on an exact real. */
  function Fabs(x: real): (r: real)
    ensures r >= 0.0 && (r == x || r == -x)
  {
    if x < 0.0 then -x else x
  }

  /** Bucket width for a table of n buckets. */
  function Delta(n: int): (d: real)
    requires n >= 1
    ensures d > 0.0 && d * n as real == DistRange
  {
    DistRange / n as real
  }

  /** Bucket k's upper bound d * (k + 1) exceeds a. */
  predicate Exceeds(a: real, d: real, k: int)
    ensures d > 0.0 ==> (Exceeds(a, d, k) <==> a / d < (k + 1) as real)
  {
    a < d * (k + 1) as real
  }

  /** The bucket scan from bucket g on: the first bucket b at or after g
      whose upper bound d * (b + 1) exceeds a, the last bucket n - 1 when
      none before it does. */
  function FirstBucket(a: real, d: real, g: int, n: int): (b: int)
    requires 0 <= g < n
    ensures g <= b < n
    decreases n - g
  {
    if g == n - 1 then g
    else if Exceeds(a, d, g) then g
    else FirstBucket(a, d, g + 1, n)
  }

  /** The bucket Canvas::Update picks for sample s in a table of n buckets. */
  function Bucket(s: real, n: int): (b: int)
    requires n >= 1
    ensures 0 <= b < n
  {
    FirstBucket(Fabs(s), Delta(n), 0, n)
  }

  /** The scan picks the least bucket b >= g whose bound exceeds a, or the
      last bucket if no earlier one does. */
  lemma {:induction false} FirstBucketIsLeast(a: real, d: real, g: int, n: int, b: int)
    requires 0 <= g <= b < n
    ensures FirstBucket(a, d, g, n) == b <==>
      (b == n - 1 || Exceeds(a, d, b)) && forall k :: g <= k < b ==> !Exceeds(a, d, k)
    decreases n - g
  {
    if g == n - 1 {
    } else if Exceeds(a, d, g) {
    } else if g < b {
      FirstBucketIsLeast(a, d, g + 1, n, b);
    }
  }

  /** Bucket(s, n) is b exactly when b is the last bucket or |s| is below
      b's upper bound, and |s| is at or above the bound of every earlier
      bucket. */
  lemma BucketIsLeast(s: real, n: int, b: int)
    requires n >= 1 && 0 <= b < n
    ensures Bucket(s, n) == b <==>
      (b == n - 1 || Exceeds(Fabs(s), Delta(n), b)) &&
      forall k :: 0 <= k < b ==> !Exceeds(Fabs(s), Delta(n), k)
  {
    FirstBucketIsLeast(Fabs(s), Delta(n), 0, n, b);
  }

  /** For a >= 0 and d > 0 the bound d * (k + 1) exceeds a exactly when
      k is at least the floor of a / d. */
  lemma BoundExceeds(a: real, d: real, k: int)
    requires a >= 0.0 && d > 0.0
    ensures Exceeds(a, d, k) <==> (a / d).Floor <= k
  {
    var q := a / d;
    assert a == q * d;
    if q < (k + 1) as real {
      assert q * d < (k + 1) as real * d;
    } else {
      assert q * d >= (k + 1) as real * d;
    }
  }

  /** An independent statement of the scan: from g on it yields the floor
      of a / d, capped at the last bucket and raised to g. */
  lemma {:induction false} FirstBucketClosedForm(a: real, d: real, g: int, n: int)
    requires a >= 0.0 && d > 0.0 && 0 <= g < n
    ensures FirstBucket(a, d, g, n) ==
      if (a / d).Floor <= g then g
      else if (a / d).Floor >= n - 1 then n - 1
      else (a / d).Floor
    decreases n - g
  {
    BoundExceeds(a, d, g);
    if g < n - 1 && !Exceeds(a, d, g) {
      FirstBucketClosedForm(a, d, g + 1, n);
    }
  }

  /** Bucket(s, n) is floor(|s| * n / 11.5), capped at the last bucket. */
  lemma BucketClosedForm(s: real, n: int)
    requires n >= 1
    ensures Bucket(s, n) == Min((Fabs(s) / Delta(n)).Floor, n - 1)
  {
    FirstBucketClosedForm(Fabs(s), Delta(n), 0, n);
    assert (Fabs(s) / Delta(n)).Floor >= 0;
  }

  function Min(a: int, b: int): (m: int)
  {
    if a < b then a else b
  }

  /** A sample at or beyond the range edge lands in the last bucket,
      whatever the bucket count. */
  lemma OverflowIsLastBucket(s: real, n: int)
    requires n >= 1 && Fabs(s) >= DistRange
    ensures Bucket(s, n) == n - 1
  {
    BucketClosedForm(s, n);
    var d := Delta(n);
    assert d * n as real == DistRange;
    assert Fabs(s) / d >= n as real by {
      assert Fabs(s) >= n as real * d;
    }
  }

  /** The bucket never decreases as |s| grows. */
  lemma BucketMonotone(s: real, t: real, n: int)
    requires n >= 1 && Fabs(s) <= Fabs(t)
    ensures Bucket(s, n) <= Bucket(t, n)
  {
    BucketClosedForm(s, n);
    BucketClosedForm(t, n);
    DivMono(Fabs(s), Fabs(t), Delta(n));
  }

  lemma DivMono(a: real, b: real, d: real)
    requires 0.0 <= a <= b && d > 0.0
    ensures a / d <= b / d
  {
    var qa, qb := a / d, b / d;
    assert qa * d == a && qb * d == b;
  }

  /** A sample and its negation get the same bucket. */
  lemma BucketSymmetric(s: real, n: int)
    requires n >= 1
    ensures Bucket(-s, n) == Bucket(s, n)
  {
    assert Fabs(-s) == Fabs(s);
  }

  /** The colour ids Canvas::Update assigns to the given samples: the id of
      each sample's bucket. */
  function Sampled(ids: seq<int>, n: int, samples: seq<real>): (r: seq<int>)
    requires |samples| == 0 || 1 <= n <= |ids|
    ensures |r| == |samples|
  {
    seq(|samples|, k requires 0 <= k < |samples| => ids[Bucket(samples[k], n)])
  }

  /** Every assigned id is one of the table's configured ids. */
  lemma SampledFromTable(ids: seq<int>, n: int, samples: seq<real>, k: int)
    requires 1 <= n <= |ids| && 0 <= k < |samples|
    ensures Sampled(ids, n, samples)[k] in ids[..n]
  {
    var b := Bucket(samples[k], n);
    assert ids[..n][b] == ids[b];
  }

  /** Negating every sample changes no assigned id. */
  lemma SampledIgnoresSign(ids: seq<int>, n: int, samples: seq<real>, negated: seq<real>)
    requires 1 <= n <= |ids| && |negated| == |samples|
    requires forall k :: 0 <= k < |samples| ==> negated[k] == -samples[k]
    ensures Sampled(ids, n, negated) == Sampled(ids, n, samples)
  {
    forall k | 0 <= k < |samples|
      ensures Sampled(ids, n, negated)[k] == Sampled(ids, n, samples)[k]
    {
      BucketSymmetric(samples[k], n);
    }
  }

  /** Samples within [-11.5 / n, 11.5 / n) take the first bucket, those at
      or beyond 11.5 the last one. */
  lemma SampledEdges(ids: seq<int>, n: int, samples: seq<real>, k: int)
    requires 1 <= n <= |ids| && 0 <= k < |samples|
    ensures Fabs(samples[k]) < Delta(n) ==> Sampled(ids, n, samples)[k] == ids[0]
    ensures Fabs(samples[k]) >= DistRange ==> Sampled(ids, n, samples)[k] == ids[n - 1]
  {
    BucketIsLeast(samples[k], n, 0);
    if Fabs(samples[k]) >= DistRange {
      OverflowIsLastBucket(samples[k], n);
    }
  }

  class Canvas {
    var pixelNum: int
    var pixel: Vector2n
    var size: Vector2n
    var colorId: seq<int>

    ghost predicate Valid()
      reads this
    {
      pixelNum == pixel.x * pixel.y && |colorId| == pixelNum
    }

    /** A default-constructed canvas has no cells. */
    constructor ()
      ensures Valid() && pixel == Vector2n(0, 0) && colorId == []
    {
      pixelNum := 0;
      pixel := Vector2n(0, 0);
      size := Vector2n(0, 0);
      colorId := [];
    }

    /** Canvas::Create without its drawing resources: pixel.x * pixel.y
        cells, the control size recorded, and every cell drawn by Update. */
    method Create(pixel: Vector2n, size: Vector2n, range: Range, samples: seq<real>)
      requires pixel.x * pixel.y >= 0 && |samples| == pixel.x * pixel.y
      requires |samples| == 0 || 1 <= range.grid <= |range.colorId|
      modifies this
      ensures Valid() && this.pixel == pixel && this.size == size
      ensures colorId == Sampled(range.colorId, range.grid, samples)
    {
      this.pixel := pixel;
      pixelNum := pixel.x * pixel.y;
      colorId := Resize(colorId, pixelNum, 0);
      this.size := size;
      Update(range, samples);
    }

    /** Canvas::Update: cell k takes the id of the bucket of samples[k];
        the result does not depend on the previous cells. */
    method Update(range: Range, samples: seq<real>)
      requires Valid() && |samples| == pixelNum
      requires |samples| == 0 || 1 <= range.grid <= |range.colorId|
      modifies this`colorId
      ensures Valid()
      ensures colorId == Sampled(range.colorId, range.grid, samples)
    {
      var rangeGrid := range.GetGrid();
      if pixelNum == 0 {
        assert colorId == Sampled(range.colorId, rangeGrid, samples);
        return;
      }
      var delta := DistRange / rangeGrid as real;
      var pixelId := 0;
      while pixelId < pixelNum
        invariant 0 <= pixelId <= pixelNum
        invariant Valid()
        invariant forall k :: 0 <= k < pixelId ==>
          colorId[k] == range.colorId[Bucket(samples[k], rangeGrid)]
      {
        ScanBuckets(range, pixelId, samples[pixelId], delta);
        pixelId := pixelId + 1;
      }
      assert colorId == Sampled(range.colorId, rangeGrid, samples);
    }

    /** One iteration of Update's outer loop: cell pixelId starts at the last
        bucket's id and takes the id of the first bucket whose bound exceeds
        |result|. */
    method ScanBuckets(range: Range, pixelId: int, result: real, delta: real)
      requires Valid() && 0 <= pixelId < |colorId|
      requires 1 <= range.grid <= |range.colorId| && delta == Delta(range.grid)
      modifies this`colorId
      ensures Valid()
      ensures colorId == old(colorId)[pixelId := range.colorId[Bucket(result, range.grid)]]
    {
      var rangeGrid := range.GetGrid();
      var a := Fabs(result);
      colorId := colorId[pixelId := 0];
      colorId := colorId[pixelId := range.GetColorId(rangeGrid - 1)];
      var exit := false;
      var gridId := 0;
      while gridId < rangeGrid && !exit
        invariant 0 <= gridId <= rangeGrid
        invariant Valid() && |colorId| == |old(colorId)|
        invariant colorId == old(colorId)[pixelId := colorId[pixelId]]
        invariant exit ==> colorId[pixelId] == range.colorId[Bucket(result, rangeGrid)]
        invariant !exit ==> colorId[pixelId] == range.colorId[rangeGrid - 1]
        invariant !exit && gridId < rangeGrid ==> Bucket(result, rangeGrid) == FirstBucket(a, delta, gridId, rangeGrid)
        invariant !exit && gridId == rangeGrid ==> Bucket(result, rangeGrid) == rangeGrid - 1
        decreases rangeGrid - gridId, !exit
      {
        if a < delta * (gridId + 1) as real {
          assert Exceeds(a, delta, gridId);
          colorId := colorId[pixelId := range.GetColorId(gridId)];
          exit := true;
        }
        gridId := gridId + 1;
      }
    }

    /** The canvas dimensions, which give the number of cells. */
    function GetPixels(): (p: Vector2n)
      reads this
      ensures Valid() ==> p.x * p.y == |colorId|
    {
      pixel
    }

    /** The colour id held by cell pixelId. */
    function GetColorId(pixelId: int): (id: int)
      reads this
      requires 0 <= pixelId < |colorId|
      ensures id in colorId
    {
      colorId[pixelId]
    }
  }
}
