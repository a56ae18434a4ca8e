/**
 * The quantize colour scale with domain [0, max] and a range of colour stops:
 * the domain is cut into `n` equal-width buckets, bucket `i` maps to stop `i`,
 * and values outside the domain are clamped into the end buckets. Arithmetic
 * is exact (`real`).
 */
module Quantize {
  import opened Options
  import opened Colours

  datatype Scale = Scale(max: real, range: seq<Colour>)

  /** A domain starting at 0 and at least one stop. */
  predicate Valid(sc: Scale) {
    sc.max >= 0.0 && |sc.range| > 0
  }

  /** Lower bound of bucket `i`. */
  function Lo(sc: Scale, i: nat): real
    requires |sc.range| > 0
  {
    (i as real) * sc.max / (|sc.range| as real)
  }

  /** Upper bound of bucket `i`: its lower bound plus one bucket width. */
  function Hi(sc: Scale, i: nat): real
    requires |sc.range| > 0
  {
    Lo(sc, i) + sc.max / (|sc.range| as real)
  }

  /** Where `x` falls, in bucket widths from 0. */
  function Position(sc: Scale, x: real): real
    requires Valid(sc) && sc.max > 0.0
  {
    (|sc.range| as real) / sc.max * x
  }

  /**
   * The bucket of `x`: the whole part of its position, clamped into
   * [0, n - 1]. With an empty domain (max == 0) the factor n / max is positive
   * infinity, so a positive value lands in the last bucket and a negative one
   * in the first; 0 has no bucket there and is excluded.
   */
  function Bucket(sc: Scale, x: real): (i: nat)
    requires Valid(sc)
    requires sc.max > 0.0 || x != 0.0
    ensures i < |sc.range|
  {
    var last := |sc.range| - 1;
    if sc.max == 0.0 then (if x > 0.0 then last else 0)
    else
      var k := Position(sc, x).Floor;
      if k > last then last else if k < 0 then 0 else k
  }

  /** The scale applied to a value. */
  function Apply(sc: Scale, x: real): (c: Colour)
    requires Valid(sc)
    requires sc.max > 0.0 || x != 0.0
    ensures c in sc.range
  {
    sc.range[Bucket(sc, x)]
  }

  /** First position of `c` in `s`, or `None` when it does not occur. */
  function IndexOf(s: seq<Colour>, c: Colour): (r: Option<nat>)
    ensures r.None? <==> c !in s
    ensures r.Some? ==> r.value < |s| && s[r.value] == c
    ensures r.Some? ==> forall j :: 0 <= j < r.value ==> s[j] != c
  {
    if s == [] then None
    else if s[0] == c then Some(0)
    else match IndexOf(s[1..], c)
      case None => None
      case Some(k) => Some(k + 1)
  }

  /**
   * The extent [lo, hi] of the bucket that maps to `c` (the first such bucket
   * when a colour repeats); `None` when `c` is not a stop.
   */
  function InvertExtent(sc: Scale, c: Colour): (r: Option<(real, real)>)
    ensures r.Some? <==> c in sc.range
  {
    match IndexOf(sc.range, c)
    case None => None
    case Some(i) => Some((Lo(sc, i), Hi(sc, i)))
  }

  // ---------------------------------------------------------------------------
  // The buckets
  // ---------------------------------------------------------------------------

  /** The buckets tile [0, max]: they start at 0, meet end to end and stop at max. */
  lemma BucketsTileDomain(sc: Scale, i: nat)
    requires Valid(sc) && i < |sc.range|
    ensures Lo(sc, 0) == 0.0
    ensures Hi(sc, |sc.range| - 1) == sc.max
    ensures i + 1 < |sc.range| ==> Hi(sc, i) == Lo(sc, i + 1)
    ensures Lo(sc, i) <= Hi(sc, i)
    ensures Lo(sc, i) == 0.0 <==> i == 0 || sc.max == 0.0
  {
    var n := |sc.range| as real;
    assert Hi(sc, |sc.range| - 1) == (n - 1.0) * sc.max / n + sc.max / n;
    assert Lo(sc, i) == (i as real) * (sc.max / n);
    assert Hi(sc, i) == (i as real + 1.0) * (sc.max / n);
    if i > 0 && sc.max > 0.0 {
      assert sc.max / n > 0.0;
    }
  }

  /** Comparing `x` with a bucket bound is comparing its position with the bucket number. */
  lemma PositionOrder(sc: Scale, i: nat, x: real)
    requires Valid(sc) && sc.max > 0.0
    ensures Lo(sc, i) <= x <==> (i as real) <= Position(sc, x)
    ensures x < Hi(sc, i) <==> Position(sc, x) < (i as real) + 1.0
  {
    var n := |sc.range| as real;
    var w := sc.max / n;
    assert w > 0.0;
    assert Position(sc, x) == x / w;
    assert Lo(sc, i) == (i as real) * w;
    assert Hi(sc, i) == ((i as real) + 1.0) * w;
    DivideByPositive(x, w, i as real);
    DivideByPositive(x, w, (i as real) + 1.0);
  }

  lemma DivideByPositive(x: real, w: real, k: real)
    requires w > 0.0
    ensures k * w <= x <==> k <= x / w
    ensures x < k * w <==> x / w < k
  {
    assert x == (x / w) * w;
  }

  /**
   * The complete description of `Bucket` on a non-empty domain: `x` is in
   * bucket `i` exactly when it is at least the bucket's lower bound (or `i`
   * is the first bucket) and below its upper bound (or `i` is the last).
   */
  lemma BucketIff(sc: Scale, x: real, i: nat)
    requires Valid(sc) && sc.max > 0.0 && i < |sc.range|
    ensures Bucket(sc, x) == i <==>
      (i == 0 || Lo(sc, i) <= x) && (i == |sc.range| - 1 || x < Hi(sc, i))
  {
    PositionOrder(sc, i, x);
    var p := Position(sc, x);
    var k := p.Floor;
    assert (k as real) <= p < (k as real) + 1.0;
  }

  /** Inside the domain, bucket `i` holds exactly the values in [Lo(i), Hi(i)). */
  lemma BucketInsideDomain(sc: Scale, x: real, i: nat)
    requires Valid(sc) && sc.max > 0.0 && i < |sc.range|
    requires 0.0 <= x < sc.max
    ensures Bucket(sc, x) == i <==> Lo(sc, i) <= x < Hi(sc, i)
  {
    BucketIff(sc, x, i);
    BucketsTileDomain(sc, i);
  }

  /** 0 maps to the first stop and `max` (and anything above it) to the last. */
  lemma BucketEnds(sc: Scale, x: real)
    requires Valid(sc) && sc.max > 0.0
    ensures Apply(sc, 0.0) == sc.range[0]
    ensures x >= sc.max ==> Apply(sc, x) == sc.range[|sc.range| - 1]
    ensures x < 0.0 ==> Apply(sc, x) == sc.range[0]
  {
    BucketIff(sc, 0.0, 0);
    BucketIff(sc, x, 0);
    BucketIff(sc, x, |sc.range| - 1);
    BucketsTileDomain(sc, |sc.range| - 1);
  }

  /** A larger value never lands in a lower bucket. */
  lemma BucketMonotonic(sc: Scale, x: real, y: real)
    requires Valid(sc) && (sc.max > 0.0 || (x != 0.0 && y != 0.0))
    requires x <= y
    ensures Bucket(sc, x) <= Bucket(sc, y)
  {
    if sc.max > 0.0 {
      var a := (|sc.range| as real) / sc.max;
      ScalePositive(a, x, y);
      FloorMonotonic(Position(sc, x), Position(sc, y));
    }
  }

  lemma ScalePositive(a: real, x: real, y: real)
    requires a > 0.0 && x <= y
    ensures a * x <= a * y
  {
  }

  lemma FloorMonotonic(p: real, q: real)
    requires p <= q
    ensures p.Floor <= q.Floor
  {
    assert (q.Floor as real) + 1.0 > q;
  }

  // ---------------------------------------------------------------------------
  // invertExtent is the inverse of the buckets
  // ---------------------------------------------------------------------------

  /** With distinct stops, the extent of stop `i` is bucket `i`. */
  lemma ExtentOfStop(sc: Scale, i: nat)
    requires Distinct(sc.range) && i < |sc.range|
    ensures InvertExtent(sc, sc.range[i]) == Some((Lo(sc, i), Hi(sc, i)))
  {
    assert IndexOf(sc.range, sc.range[i]) == Some(i);
  }

  /** Every value of a stop's extent, except its upper end, maps back to that stop. */
  lemma ApplyInvertsExtent(sc: Scale, c: Colour, x: real)
    requires Valid(sc) && sc.max > 0.0 && c in sc.range
    requires InvertExtent(sc, c).value.0 <= x < InvertExtent(sc, c).value.1
    ensures Apply(sc, x) == c
  {
    var i := IndexOf(sc.range, c).value;
    BucketIff(sc, x, i);
  }

  /** The midpoint of a stop's extent maps back to the stop. */
  lemma ApplyAtMidpoint(sc: Scale, c: Colour)
    requires Valid(sc) && sc.max > 0.0 && c in sc.range
    ensures Apply(sc, (InvertExtent(sc, c).value.0 + InvertExtent(sc, c).value.1) / 2.0) == c
  {
    var i := IndexOf(sc.range, c).value;
    BucketsTileDomain(sc, i);
    assert Lo(sc, i) < Hi(sc, i) by {
      assert sc.max / (|sc.range| as real) > 0.0;
    }
    ApplyInvertsExtent(sc, c, (Lo(sc, i) + Hi(sc, i)) / 2.0);
  }

  /**
   * With distinct stops and a non-empty domain, a value of the domain maps to
   * `c` exactly when it lies in the extent of `c`.
   */
  lemma ApplyIffInExtent(sc: Scale, c: Colour, x: real)
    requires Valid(sc) && sc.max > 0.0 && Distinct(sc.range) && c in sc.range
    requires 0.0 <= x < sc.max
    ensures Apply(sc, x) == c <==>
      InvertExtent(sc, c).value.0 <= x < InvertExtent(sc, c).value.1
  {
    var i := IndexOf(sc.range, c).value;
    var b := Bucket(sc, x);
    BucketInsideDomain(sc, x, i);
  }

  /** Three stops over [0, 60]: the buckets are [0, 20), [20, 40), [40, 60], so 45 is red. */
  lemma ThreeStopExample()
    ensures Apply(Scale(60.0, ["#FFFFFF", "#FFFF00", "#FF0000"]), 45.0) == "#FF0000"
  {
    var sc := Scale(60.0, ["#FFFFFF", "#FFFF00", "#FF0000"]);
    assert Position(sc, 45.0) == 2.25;
    assert Position(sc, 45.0).Floor == 2;
  }
}
