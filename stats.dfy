/**
 * The three summary statistics the command reports for a series of samples:
 * the smallest sample, the largest sample and the arithmetic mean.
 * The command takes them from a time-series library; here they are plain
 * reductions over exact reals, defined on non-empty series only.
 */
module Stats {

  /** One `{min, max, mean}` triple. */
  datatype DataPoint = DataPoint(min: real, max: real, mean: real)

  /** The smallest sample: it occurs in the series and no sample is below it. */
  function Min(s: seq<real>): (r: real)
    requires |s| > 0
    ensures r in s
    ensures forall i :: 0 <= i < |s| ==> r <= s[i]
  {
    if |s| == 1 then s[0]
    else
      var rest := Min(s[1..]);
      if s[0] <= rest then s[0] else rest
  }

  /** The largest sample: it occurs in the series and no sample is above it. */
  function Max(s: seq<real>): (r: real)
    requires |s| > 0
    ensures r in s
    ensures forall i :: 0 <= i < |s| ==> s[i] <= r
  {
    if |s| == 1 then s[0]
    else
      var rest := Max(s[1..]);
      if rest <= s[0] then s[0] else rest
  }

  /** The sum of the samples. */
  function Sum(s: seq<real>): real
  {
    if |s| == 0 then 0.0 else s[0] + Sum(s[1..])
  }

  /** The arithmetic mean: sum divided by count. */
  function Mean(s: seq<real>): real
    requires |s| > 0
  {
    Sum(s) / (|s| as real)
  }

  /** Summing a concatenation sums the parts. */
  lemma {:induction false} SumConcat(a: seq<real>, b: seq<real>)
    ensures Sum(a + b) == Sum(a) + Sum(b)
  {
    if |a| == 0 {
      assert a + b == b;
    } else {
      assert (a + b)[1..] == a[1..] + b;
      SumConcat(a[1..], b);
    }
  }

  /** A sum of samples that all lie in `[lo, hi]` lies in `[count * lo, count * hi]`. */
  lemma {:induction false} SumBounds(s: seq<real>, lo: real, hi: real)
    requires forall i :: 0 <= i < |s| ==> lo <= s[i] <= hi
    ensures (|s| as real) * lo <= Sum(s) <= (|s| as real) * hi
  {
    if |s| > 0 {
      SumBounds(s[1..], lo, hi);
      assert (|s| as real) * lo == lo + (|s[1..]| as real) * lo;
      assert (|s| as real) * hi == hi + (|s[1..]| as real) * hi;
    }
  }

  /** The mean of samples that all lie in `[lo, hi]` lies in `[lo, hi]`. */
  lemma MeanBounded(s: seq<real>, lo: real, hi: real)
    requires |s| > 0
    requires forall i :: 0 <= i < |s| ==> lo <= s[i] <= hi
    ensures lo <= Mean(s) <= hi
  {
    SumBounds(s, lo, hi);
    ScaledBounds(Sum(s), |s| as real, lo, hi);
  }

  /** The mean of a non-empty series lies between its minimum and its maximum. */
  lemma MeanBetween(s: seq<real>)
    requires |s| > 0
    ensures Min(s) <= Mean(s) <= Max(s)
  {
    MeanBounded(s, Min(s), Max(s));
  }

  /** Dividing `n * lo <= x <= n * hi` by a positive `n`. */
  lemma ScaledBounds(x: real, n: real, lo: real, hi: real)
    requires n > 0.0 && n * lo <= x <= n * hi
    ensures lo <= x / n <= hi
  {
    assert (x / n) * n == x;
  }

  /** The triple reported for a non-empty series. */
  function StatsOf(s: seq<real>): (r: DataPoint)
    requires |s| > 0
    ensures r.min in s && r.max in s
    ensures forall i :: 0 <= i < |s| ==> r.min <= s[i] <= r.max
    ensures r.min <= r.mean <= r.max
  {
    MeanBetween(s);
    DataPoint(Min(s), Max(s), Mean(s))
  }

  /** On ascending samples the minimum is the first sample and the maximum the last. */
  lemma ExtremesOfAscending(s: seq<real>)
    requires |s| > 0
    requires forall i :: 0 < i < |s| ==> s[i - 1] <= s[i]
    ensures Min(s) == s[0] && Max(s) == s[|s| - 1]
  {
    Ascending(s);
    var i :| 0 <= i < |s| && s[i] == Min(s);
    var j :| 0 <= j < |s| && s[j] == Max(s);
  }

  lemma {:induction false} Ascending(s: seq<real>)
    requires forall i :: 0 < i < |s| ==> s[i - 1] <= s[i]
    ensures forall i, j :: 0 <= i <= j < |s| ==> s[i] <= s[j]
  {
    if |s| > 1 {
      var init := s[..|s| - 1];
      Ascending(init);
      forall i, j | 0 <= i <= j < |s|
        ensures s[i] <= s[j]
      {
        if j < |s| - 1 {
          assert init[i] <= init[j];
        } else if i < j {
          assert init[i] <= init[|s| - 2];
        }
      }
    }
  }

  /** The extremes of a concatenation are the extremes of its parts. */
  lemma ExtremesOfConcat(a: seq<real>, b: seq<real>)
    requires |a| > 0 && |b| > 0
    ensures Min(a + b) == if Min(a) <= Min(b) then Min(a) else Min(b)
    ensures Max(a + b) == if Max(b) <= Max(a) then Max(a) else Max(b)
  {
    BoundsOfConcat(a, b);
    BoundsOfConcat(b, a);
    var c := a + b;
    var m, n := Min(c), Max(c);
    if m in a {
      var k :| 0 <= k < |a| && a[k] == m;
    } else {
      var k :| 0 <= k < |b| && b[k] == m;
    }
    if n in a {
      var k :| 0 <= k < |a| && a[k] == n;
    } else {
      var k :| 0 <= k < |b| && b[k] == n;
    }
  }

  lemma BoundsOfConcat(a: seq<real>, b: seq<real>)
    requires |a| > 0 && |b| > 0
    ensures Min(a + b) <= Min(a) && Max(a) <= Max(a + b)
    ensures Min(b + a) <= Min(a) && Max(a) <= Max(b + a)
  {
    var i :| 0 <= i < |a| && a[i] == Min(a);
    var j :| 0 <= j < |a| && a[j] == Max(a);
    assert (a + b)[i] == a[i] && (a + b)[j] == a[j];
    assert (b + a)[|b| + i] == a[i] && (b + a)[|b| + j] == a[j];
  }
}
