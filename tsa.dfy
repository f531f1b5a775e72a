/**
 * The `tsa` command's `execute`: resolve the window, ask the provider for data
 * over it, and summarise what comes back. The provider is a parameter: a
 * function from the requested window to what the awaited call delivers or the
 * reason it failed.
 */
module Tsa {
  import opened Outcomes
  import Stats
  import opened StatSort
  import opened Display
  import opened WindowResolver
  import ObjectKeys

  /** One labelled series of samples, as the provider returns it under `data[label]`. */
  datatype Series = Series(name: string, samples: seq<real>)

  /** The labels of an object's keys are distinct. */
  predicate DistinctKeys(data: seq<Series>)
  {
    forall i, j :: 0 <= i < j < |data| ==> data[i].name != data[j].name
  }

  /** The labels, in the order the series are listed. */
  function SeriesLabels(data: seq<Series>): seq<string>
  {
    seq(|data|, i requires 0 <= i < |data| => data[i].name)
  }

  /**
   * The `data` object of a labelled result, listed in `Object.keys` order: each
   * label once, array-index labels first in ascending numeric order, then the
   * others in the order the provider created them.
   */
  type Dictionary = data: seq<Series> | DistinctKeys(data) && ObjectKeys.Enumeration(SeriesLabels(data)) == SeriesLabels(data)
    witness []

  /** What the provider returns: a bare array of samples, or an object of labelled series. */
  datatype ProviderResult = Anonymous(samples: seq<real>) | Labelled(data: Dictionary)

  /** The outcome of awaiting the provider. */
  datatype Fetch = Delivered(result: ProviderResult) | Failed(reason: string)

  /** What the command shows: a `Min: … Max: … Mean: …` line, or the table. */
  datatype Report = Summary(stats: Stats.DataPoint) | Tabulated(table: Table)

  /** The options `execute` reads. */
  datatype TsaOptions = TsaOptions(since: Option<string>, until: Option<string>, step: Option<string>,
                                   aggregate: bool, sortBy: Option<SortType>, sortDirection: Option<SortDirection>)

  /** Why a run fails: a range option the duration parser rejects, or a provider failure passed on unchanged. */
  datatype TsaError = BadRange(cause: ParseError) | ProviderFailed(reason: string)

  /** `Object.keys(data).flatMap(k => data[k])`: all samples, series after series in key order. */
  function Flatten(data: seq<Series>): seq<real>
  {
    if |data| == 0 then [] else data[0].samples + Flatten(data[1..])
  }

  /** The number of samples across all series. */
  function TotalLength(data: seq<Series>): nat
  {
    if |data| == 0 then 0 else TotalLength(data[..|data| - 1]) + |data[|data| - 1].samples|
  }

  lemma {:induction false} FlattenConcat(a: seq<Series>, b: seq<Series>)
    ensures Flatten(a + b) == Flatten(a) + Flatten(b)
  {
    if |a| > 0 {
      assert (a + b)[1..] == a[1..] + b;
      FlattenConcat(a[1..], b);
    } else {
      assert a + b == b;
    }
  }

  /** The merged series is exactly as long as all series together. */
  lemma {:induction false} FlattenLength(data: seq<Series>)
    ensures |Flatten(data)| == TotalLength(data)
  {
    if |data| > 0 {
      var init, last := data[..|data| - 1], data[|data| - 1];
      assert data == init + [last];
      FlattenConcat(init, [last]);
      assert Flatten([last]) == last.samples + Flatten([]);
      FlattenLength(init);
    }
  }

  /** A sample is in the merged series exactly when it is in one of the series. */
  lemma {:induction false} FlattenContains(data: seq<Series>, x: real)
    ensures x in Flatten(data) <==> exists i :: 0 <= i < |data| && x in data[i].samples
  {
    if |data| > 0 {
      FlattenContains(data[1..], x);
      if x in Flatten(data[1..]) {
        var i :| 0 <= i < |data[1..]| && x in data[1..][i].samples;
        assert x in data[i + 1].samples;
      }
      if exists i :: 0 <= i < |data| && x in data[i].samples {
        var i :| 0 <= i < |data| && x in data[i].samples;
        if i > 0 {
          assert x in data[1..][i - 1].samples;
        }
      }
    }
  }

  /** One row per key, in key order: the label with the min, max and mean of its own series. */
  function PerSeries(data: seq<Series>): (r: seq<Processed>)
    requires forall i :: 0 <= i < |data| ==> |data[i].samples| > 0
    ensures |r| == |data|
    ensures forall i :: 0 <= i < |data| ==>
              && r[i].name == data[i].name
              && r[i].stats == Stats.StatsOf(data[i].samples)
              && r[i].stats.min in data[i].samples && r[i].stats.max in data[i].samples
              && r[i].stats.min <= r[i].stats.mean <= r[i].stats.max
  {
    seq(|data|, i requires 0 <= i < |data| => Processed(data[i].name, Stats.StatsOf(data[i].samples)))
  }

  lemma PerSeriesDistinct(data: Dictionary)
    requires forall i :: 0 <= i < |data| ==> |data[i].samples| > 0
    ensures DistinctNames(PerSeries(data))
  {
  }

  /** The statistics the result needs exist: no series the command summarises is empty. */
  predicate Computable(raw: ProviderResult, aggregate: bool)
  {
    match raw
    case Anonymous(samples) => |samples| > 0
    case Labelled(data) =>
      if aggregate then |Flatten(data)| > 0 else forall i :: 0 <= i < |data| ==> |data[i].samples| > 0
  }

  /** `report` is what the command shows for `raw`: which branch applies, and what it computes. */
  ghost predicate Reports(raw: ProviderResult, aggregate: bool, sortBy: Option<SortType>,
                          sortDirection: Option<SortDirection>, report: Report)
    requires Computable(raw, aggregate)
  {
    match raw
    case Anonymous(samples) => report == Summary(Stats.StatsOf(samples))
    case Labelled(data) =>
      if aggregate then report == Summary(Stats.StatsOf(Flatten(data)))
      else report.Tabulated? && Displays(report.table, SortRows(PerSeries(data), sortBy.GetOr(Mean), sortDirection.GetOr(Desc)))
  }

  /** Lines 118-154: summarise an anonymous array or the merged series, or sort the per-label rows in place and fold them into the table. */
  method ProcessResult(raw: ProviderResult, aggregate: bool, sortBy: Option<SortType>, sortDirection: Option<SortDirection>)
    returns (report: Report)
    requires Computable(raw, aggregate)
    ensures Reports(raw, aggregate, sortBy, sortDirection, report)
  {
    match raw
    case Anonymous(samples) =>
      report := Summary(Stats.StatsOf(samples));
    case Labelled(data) =>
      if aggregate {
        report := Summary(Stats.StatsOf(Flatten(data)));
      } else {
        var rows := PerSeries(data);
        var processed := new Processed[|rows|](i requires 0 <= i < |rows| => rows[i]);
        assert processed[..] == rows;
        var key := sortBy.GetOr(Mean);
        var dir := sortDirection.GetOr(Desc);
        SortInPlace(processed, key, dir);
        PerSeriesDistinct(data);
        StableSortDistinct(rows, RankBy(key, dir));
        var table := BuildDisplay(processed[..]);
        report := Tabulated(table);
      }
  }

  /**
   * The whole command. `request` is the window handed to the provider, `None`
   * when resolution fails before the provider is called.
   */
  method Execute(opts: TsaOptions, now: int, duration: string -> Option<int>, provider: TimeWindow -> Fetch)
    returns (request: Option<TimeWindow>, r: Result<Report, TsaError>)
    requires var resolved := ResolveWindow(now, opts.since, opts.until, opts.step, duration);
             resolved.Ok? && provider(resolved.value).Delivered? ==> Computable(provider(resolved.value).result, opts.aggregate)
    ensures var resolved := ResolveWindow(now, opts.since, opts.until, opts.step, duration);
            match resolved
            case Err(e) => request == None && r == Err(BadRange(e))
            case Ok(w) =>
              && request == Some(w)
              && match provider(w)
                 case Failed(reason) => r == Err(ProviderFailed(reason))
                 case Delivered(raw) => r.Ok? && Reports(raw, opts.aggregate, opts.sortBy, opts.sortDirection, r.value)
  {
    match ResolveWindow(now, opts.since, opts.until, opts.step, duration)
    case Err(e) =>
      request, r := None, Err(BadRange(e));
    case Ok(w) =>
      request := Some(w);
      match provider(w)
      case Failed(reason) =>
        r := Err(ProviderFailed(reason));
      case Delivered(raw) =>
        var report := ProcessResult(raw, opts.aggregate, opts.sortBy, opts.sortDirection);
        r := Ok(report);
  }

  /** The merged series' minimum is the smallest per-series minimum, and its maximum the largest per-series maximum. */
  lemma AggregateExtremes(data: seq<Series>)
    requires forall i :: 0 <= i < |data| ==> |data[i].samples| > 0
    requires |data| > 0
    ensures |Flatten(data)| > 0
    ensures var all := Stats.StatsOf(Flatten(data));
            && (forall i :: 0 <= i < |data| ==>
                  all.min <= Stats.StatsOf(data[i].samples).min && Stats.StatsOf(data[i].samples).max <= all.max)
            && (exists i :: 0 <= i < |data| && all.min == Stats.StatsOf(data[i].samples).min)
            && (exists i :: 0 <= i < |data| && all.max == Stats.StatsOf(data[i].samples).max)
  {
    FlattenContains(data, data[0].samples[0]);
    forall i | 0 <= i < |data|
      ensures Stats.StatsOf(Flatten(data)).min <= Stats.StatsOf(data[i].samples).min
      ensures Stats.StatsOf(data[i].samples).max <= Stats.StatsOf(Flatten(data)).max
    {
      SeriesInsideAggregate(data, i);
    }
    var i := AggregateAttains(data, Stats.StatsOf(Flatten(data)).min);
    var j := AggregateAttains(data, Stats.StatsOf(Flatten(data)).max);
  }

  lemma SeriesInsideAggregate(data: seq<Series>, i: int)
    requires 0 <= i < |data| && |data[i].samples| > 0
    ensures |Flatten(data)| > 0
    ensures Stats.StatsOf(Flatten(data)).min <= Stats.StatsOf(data[i].samples).min
    ensures Stats.StatsOf(data[i].samples).max <= Stats.StatsOf(Flatten(data)).max
  {
    var own := Stats.StatsOf(data[i].samples);
    FlattenContains(data, own.min);
    FlattenContains(data, own.max);
  }

  /** A sample of the merged series that is also the minimum or maximum of the merged series is that of its own series. */
  lemma AggregateAttains(data: seq<Series>, x: real) returns (i: int)
    requires forall k :: 0 <= k < |data| ==> |data[k].samples| > 0
    requires |Flatten(data)| > 0
    requires x == Stats.StatsOf(Flatten(data)).min || x == Stats.StatsOf(Flatten(data)).max
    ensures 0 <= i < |data|
    ensures x == Stats.StatsOf(Flatten(data)).min ==> x == Stats.StatsOf(data[i].samples).min
    ensures x == Stats.StatsOf(Flatten(data)).max ==> x == Stats.StatsOf(data[i].samples).max
  {
    FlattenContains(data, x);
    i :| 0 <= i < |data| && x in data[i].samples;
    SeriesInsideAggregate(data, i);
  }

  /** Sorting only reorders rows: each label's table entry is the rounded statistics of its own series. */
  lemma TableRowsMatchSeries(data: Dictionary, t: Table, key: SortType, dir: SortDirection)
    requires forall i :: 0 <= i < |data| ==> |data[i].samples| > 0
    requires Displays(t, SortRows(PerSeries(data), key, dir))
    ensures forall i :: 0 <= i < |data| ==>
              data[i].name in t.rows && t.rows[data[i].name] == Rounded(Stats.StatsOf(data[i].samples))
  {
    var rows := PerSeries(data);
    var sorted := SortRows(rows, key, dir);
    SortGuarantees(rows, key, dir);
    forall i | 0 <= i < |data|
      ensures data[i].name in t.rows && t.rows[data[i].name] == Rounded(Stats.StatsOf(data[i].samples))
    {
      assert rows[i] in multiset(sorted);
      var k :| 0 <= k < |sorted| && sorted[k] == rows[i];
    }
  }

  /** A bare array is summarised whatever `aggregate`, `sort-by` and `sort-direction` say. */
  lemma AnonymousIgnoresOptions(samples: seq<real>, a1: bool, a2: bool, b1: Option<SortType>, b2: Option<SortType>,
                                d1: Option<SortDirection>, d2: Option<SortDirection>, r1: Report, r2: Report)
    requires |samples| > 0
    requires Reports(Anonymous(samples), a1, b1, d1, r1) && Reports(Anonymous(samples), a2, b2, d2, r2)
    ensures r1 == r2 && r1.Summary?
  {
  }

  /** Two series `[1, 2, 3]` and `[4, 5, 6]` merge to min 1, max 6, mean 3.5. */
  lemma AggregateExample()
    ensures Stats.StatsOf(Flatten([Series("a", [1.0, 2.0, 3.0]), Series("b", [4.0, 5.0, 6.0])]))
            == Stats.DataPoint(1.0, 6.0, 3.5)
  {
    var data := [Series("a", [1.0, 2.0, 3.0]), Series("b", [4.0, 5.0, 6.0])];
    assert Flatten(data[1..][1..]) == [];
    assert Flatten(data[1..]) == [4.0, 5.0, 6.0];
    assert Flatten(data) == [1.0, 2.0, 3.0, 4.0, 5.0, 6.0];
    SixSamples(Flatten(data));
  }

  lemma SixSamples(flat: seq<real>)
    requires flat == [1.0, 2.0, 3.0, 4.0, 5.0, 6.0]
    ensures Stats.StatsOf(flat) == Stats.DataPoint(1.0, 6.0, 3.5)
  {
    assert Stats.Min(flat) == 1.0 && Stats.Max(flat) == 6.0 by { Stats.ExtremesOfAscending(flat); }
    assert Stats.Sum(flat) == 21.0 by { SumOfSix(); }
    assert Stats.Mean(flat) == 21.0 / 6.0;
  }

  lemma SumOfSix()
    ensures Stats.Sum([1.0, 2.0, 3.0, 4.0, 5.0, 6.0]) == 21.0
  {
    assert Stats.Sum([6.0]) == 6.0 by { assert [6.0][1..] == []; }
    assert Stats.Sum([5.0, 6.0]) == 11.0 by { assert [5.0, 6.0][1..] == [6.0]; }
    assert Stats.Sum([4.0, 5.0, 6.0]) == 15.0 by { assert [4.0, 5.0, 6.0][1..] == [5.0, 6.0]; }
    assert Stats.Sum([3.0, 4.0, 5.0, 6.0]) == 18.0 by { assert [3.0, 4.0, 5.0, 6.0][1..] == [4.0, 5.0, 6.0]; }
    assert Stats.Sum([2.0, 3.0, 4.0, 5.0, 6.0]) == 20.0 by { assert [2.0, 3.0, 4.0, 5.0, 6.0][1..] == [3.0, 4.0, 5.0, 6.0]; }
    assert [1.0, 2.0, 3.0, 4.0, 5.0, 6.0][1..] == [2.0, 3.0, 4.0, 5.0, 6.0];
  }
}
