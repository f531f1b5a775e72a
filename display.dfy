/**
 * The per-series table: each row's statistics rounded for display, collected
 * into a JavaScript object. Its keys are created in the sorted order, but the
 * object lists them as every JavaScript object does: labels that are array
 * indices first, in ascending numeric order, then the other labels in the order
 * they were created. Rounding happens only here, after sorting.
 */
module Display {
  import Stats
  import opened StatSort
  import opened ObjectKeys

  function Abs(x: real): real
  {
    if x < 0.0 then -x else x
  }

  /**
   * `parseFloat(n.toFixed(2))` on an exact value: the nearest hundredth, with
   * halves rounded away from zero (`toFixed` rounds the magnitude and keeps the sign).
   */
  function ToDisplay(x: real): real
  {
    var hundredths := (Abs(x) * 100.0 + 0.5).Floor;
    (if x < 0.0 then -hundredths else hundredths) as real / 100.0
  }

  /** A displayed value is within half a hundredth of the value. */
  lemma ToDisplayClose(x: real)
    ensures Abs(ToDisplay(x) - x) <= 0.005
  {
    var h := (Abs(x) * 100.0 + 0.5).Floor;
    assert h as real <= Abs(x) * 100.0 + 0.5 < h as real + 1.0;
  }

  /** Rounding never reverses the order of two values (it can only make them equal). */
  lemma ToDisplayMonotone(x: real, y: real)
    requires x <= y
    ensures ToDisplay(x) <= ToDisplay(y)
  {
    var hx := (Abs(x) * 100.0 + 0.5).Floor;
    var hy := (Abs(y) * 100.0 + 0.5).Floor;
    if 0.0 <= x {
      assert hx <= hy;
    } else if y < 0.0 {
      assert hy <= hx;
    } else {
      assert 0 <= hx && 0 <= hy;
    }
  }

  /** Displaying a displayed value changes nothing. */
  lemma ToDisplayIdempotent(x: real)
    ensures ToDisplay(ToDisplay(x)) == ToDisplay(x)
  {
    var h := (Abs(x) * 100.0 + 0.5).Floor;
    assert h >= 0;
    var d := ToDisplay(x);
    assert Abs(d) * 100.0 == h as real;
    assert (h as real + 0.5).Floor == h;
  }

  /** With exact arithmetic a mean of 2.005 is shown as 2.01. */
  lemma ToDisplayHalfway()
    ensures ToDisplay(2.005) == 2.01
    ensures ToDisplay(-2.005) == -2.01
  {
    assert (2.005 * 100.0 + 0.5).Floor == 201;
  }

  /** `{ min: toDisplay(min), max: toDisplay(max), mean: toDisplay(mean) }`. */
  function Rounded(d: Stats.DataPoint): Stats.DataPoint
  {
    Stats.DataPoint(ToDisplay(d.min), ToDisplay(d.max), ToDisplay(d.mean))
  }

  /** Rounding a triple rounds the statistic a table is ordered by. */
  lemma RoundedStat(d: Stats.DataPoint, key: SortType)
    ensures GetSortableStat(Rounded(d), key) == ToDisplay(GetSortableStat(d, key))
  {
  }

  /**
   * A JavaScript object used as a dictionary: `order` holds its keys in the
   * order they were created and `rows` the value of each; `Keys()` is the order
   * in which the object lists them.
   */
  datatype Table = Table(order: seq<string>, rows: map<string, Stats.DataPoint>) {

    /** Each key is listed once, and the listed keys are exactly the keys present. */
    ghost predicate Valid()
    {
      && (forall i, j :: 0 <= i < j < |order| ==> order[i] != order[j])
      && (forall k :: k in rows <==> k in order)
    }

    /** The keys as `Object.keys` and `console.table` list them. */
    function Keys(): seq<string>
    {
      Enumeration(order)
    }

    /** `acc[key] = value`: a new key is created after all others, an existing key keeps its place. */
    function Set(key: string, value: Stats.DataPoint): (t: Table)
      requires Valid()
      ensures t.Valid()
      ensures t.rows.Keys == rows.Keys + {key} && t.rows[key] == value
      ensures forall k :: k in rows && k != key ==> t.rows[k] == rows[k]
      ensures key in rows ==> t.order == order
      ensures key !in rows ==> t.order == order + [key]
    {
      Table(if key in rows then order else order + [key], rows[key := value])
    }
  }

  /** The labels of the rows, in row order. */
  function Labels(s: seq<Processed>): (r: seq<string>)
    ensures |r| == |s| && forall i :: 0 <= i < |s| ==> r[i] == s[i].name
  {
    seq(|s|, i requires 0 <= i < |s| => s[i].name)
  }

  /** `t` is the object the reduce builds from `sorted`: one key per row, created in row order, each with the row's rounded stats. */
  ghost predicate Displays(t: Table, sorted: seq<Processed>)
  {
    && t.Valid()
    && t.order == Labels(sorted)
    && forall i :: 0 <= i < |sorted| ==> sorted[i].name in t.rows && t.rows[sorted[i].name] == Rounded(sorted[i].stats)
  }

  /** `processed.reduce((acc, v) => { acc[v.label] = rounded stats; return acc }, {})`. */
  method BuildDisplay(sorted: seq<Processed>) returns (t: Table)
    requires DistinctNames(sorted)
    ensures Displays(t, sorted)
  {
    t := Table([], map[]);
    var i := 0;
    while i < |sorted|
      invariant 0 <= i <= |sorted|
      invariant Displays(t, sorted[..i])
    {
      DisplayStep(t, sorted, i);
      t := t.Set(sorted[i].name, Rounded(sorted[i].stats));
      i := i + 1;
    }
    assert sorted[..i] == sorted;
  }

  /** Assigning the next row's label extends the table by that row. */
  lemma DisplayStep(t: Table, sorted: seq<Processed>, i: nat)
    requires i < |sorted| && DistinctNames(sorted) && Displays(t, sorted[..i])
    ensures Displays(t.Set(sorted[i].name, Rounded(sorted[i].stats)), sorted[..i + 1])
  {
    var v, p, w := sorted[i], sorted[..i], sorted[..i + 1];
    assert w == p + [v];
    assert v.name !in t.rows by {
      forall k | 0 <= k < i
        ensures t.order[k] != v.name
      {
        assert t.order[k] == p[k].name == sorted[k].name;
      }
    }
    var u := t.Set(v.name, Rounded(v.stats));
    LabelsSnoc(p, v);
    forall k | 0 <= k < |w|
      ensures w[k].name in u.rows && u.rows[w[k].name] == Rounded(w[k].stats)
    {
      if k < i {
        assert w[k] == p[k] && w[k].name != v.name;
      }
    }
  }

  lemma LabelsSnoc(s: seq<Processed>, p: Processed)
    ensures Labels(s + [p]) == Labels(s) + [p.name]
  {
  }

  /** Row `a` comes no later than row `b` in a table sorted by `key` in direction `dir`. */
  ghost predicate InOrder(t: Table, a: string, b: string, key: SortType, dir: SortDirection)
  {
    && a in t.rows && b in t.rows
    && if dir == Asc then GetSortableStat(t.rows[a], key) <= GetSortableStat(t.rows[b], key)
       else GetSortableStat(t.rows[a], key) >= GetSortableStat(t.rows[b], key)
  }

  /**
   * In the order its keys were created, the table is ordered by the rounded
   * chosen statistic in the chosen direction. This is the order a `Map`, or an
   * array of rows, would show.
   */
  lemma CreationOrderFollowsSort(t: Table, ps: seq<Processed>, key: SortType, dir: SortDirection)
    requires Displays(t, SortRows(ps, key, dir))
    ensures forall i, j :: 0 <= i < j < |t.order| ==> InOrder(t, t.order[i], t.order[j], key, dir)
  {
    var sorted := SortRows(ps, key, dir);
    SortGuarantees(ps, key, dir);
    forall i, j | 0 <= i < j < |t.order|
      ensures InOrder(t, t.order[i], t.order[j], key, dir)
    {
      var a, b := sorted[i].stats, sorted[j].stats;
      RoundedStat(a, key);
      RoundedStat(b, key);
      if dir == Asc {
        ToDisplayMonotone(GetSortableStat(a, key), GetSortableStat(b, key));
      } else {
        ToDisplayMonotone(GetSortableStat(b, key), GetSortableStat(a, key));
      }
    }
  }

  /**
   * As the object lists its keys, the labels that are not array indices follow
   * the sort: they are ordered by the rounded chosen statistic in the chosen
   * direction. (Array indices come first, in ascending numeric order whatever
   * their statistics: `EnumerationIndicesFirst`.)
   */
  lemma DisplayFollowsSort(t: Table, ps: seq<Processed>, key: SortType, dir: SortDirection)
    requires Displays(t, SortRows(ps, key, dir))
    ensures forall i, j ::
              (0 <= i < j < |t.Keys()| && !IsArrayIndex(t.Keys()[i]) && !IsArrayIndex(t.Keys()[j])) ==>
              InOrder(t, t.Keys()[i], t.Keys()[j], key, dir)
  {
    var before := (a, b) => InOrder(t, a, b, key, dir);
    assert forall i, j :: 0 <= i < j < |t.order| ==> before(t.order[i], t.order[j]) by {
      CreationOrderFollowsSort(t, ps, key, dir);
    }
    NamedKeysKeepOrder(t.order, before);
  }

  /** When no label is an array index, the object lists its rows in the sorted order. */
  lemma DisplayOrderWithoutIndices(t: Table, sorted: seq<Processed>)
    requires Displays(t, sorted)
    requires forall i :: 0 <= i < |sorted| ==> !IsArrayIndex(sorted[i].name)
    ensures t.Keys() == Labels(sorted)
  {
    EnumerationWithoutIndices(t.order);
  }

  /** Sorting two rows by mean, descending, puts the one with the larger mean first. */
  lemma DescendingTwoRows(p: Processed, q: Processed)
    requires p.stats.mean < q.stats.mean
    ensures SortRows([p, q], Mean, Desc) == [q, p]
  {
    var rank := RankBy(Mean, Desc);
    assert [p, q][..1] == [p];
    assert StableSort([p], rank) == Insert([], p, rank) == [p];
    assert rank(p) - rank(q) > 0.0;
    assert Insert([p], q, rank) == Insert([], q, rank) + [p];
  }

  /**
   * A table built from a row `q` then a row `p` whose label is a smaller array
   * index lists `p` first; when `p` has the clearly smaller mean, the listed
   * means rise.
   */
  lemma SmallerIndexRowFirst(t: Table, p: Processed, q: Processed)
    requires IsArrayIndex(p.name) && IsArrayIndex(q.name) && IndexValue(p.name) < IndexValue(q.name)
    requires p.stats.mean + 0.01 < q.stats.mean
    requires Displays(t, [q, p])
    ensures t.order == [q.name, p.name]
    ensures t.Keys() == [p.name, q.name]
    ensures GetSortableStat(t.rows[p.name], Mean) < GetSortableStat(t.rows[q.name], Mean)
  {
    assert [q, p][0] == q && [q, p][1] == p;
    assert t.order == [q.name, p.name];
    SmallerIndexListedFirst(q.name, p.name);
    assert t.rows[p.name] == Rounded(p.stats) && t.rows[q.name] == Rounded(q.stats);
    ToDisplayClose(p.stats.mean);
    ToDisplayClose(q.stats.mean);
  }

  /**
   * Labels that are array indices ignore the sort: of two series whose labels
   * are array indices, sorted by mean descending, the one with the smaller index
   * and the smaller mean is created second but listed first, so the listed
   * means rise although the direction is descending.
   */
  lemma IndexLabelsIgnoreSort(t: Table, p: Processed, q: Processed)
    requires IsArrayIndex(p.name) && IsArrayIndex(q.name) && IndexValue(p.name) < IndexValue(q.name)
    requires p.stats.mean + 0.01 < q.stats.mean
    requires Displays(t, SortRows([p, q], Mean, Desc))
    ensures t.order == [q.name, p.name]
    ensures t.Keys() == [p.name, q.name]
    ensures GetSortableStat(t.rows[p.name], Mean) < GetSortableStat(t.rows[q.name], Mean)
  {
    DescendingTwoRows(p, q);
    SmallerIndexRowFirst(t, p, q);
  }

  /** Series "1" with mean 3 and series "2" with mean 5, sorted by mean descending, are listed "1" (mean 3) then "2" (mean 5). */
  lemma IndexLabelsExample(t: Table, one: Processed, two: Processed)
    requires one == Processed("1", Stats.DataPoint(3.0, 3.0, 3.0)) && two == Processed("2", Stats.DataPoint(5.0, 5.0, 5.0))
    requires Displays(t, SortRows([one, two], Mean, Desc))
    ensures t.Keys() == ["1", "2"]
    ensures t.rows["1"].mean < t.rows["2"].mean
  {
    assert one.name == ['1'] && two.name == ['2'];
    DigitIsIndex('1');
    DigitIsIndex('2');
    IndexLabelsIgnoreSort(t, one, two);
  }

  /** The table has exactly one key per input series. */
  lemma DisplayOneRowPerLabel(t: Table, ps: seq<Processed>, key: SortType, dir: SortDirection)
    requires Displays(t, SortRows(ps, key, dir))
    ensures |t.order| == |ps|
    ensures forall i :: 0 <= i < |ps| ==> ps[i].name in t.rows
    ensures forall l :: l in t.rows ==> exists i :: 0 <= i < |ps| && ps[i].name == l
  {
    var sorted := SortRows(ps, key, dir);
    SortGuarantees(ps, key, dir);
    forall i | 0 <= i < |ps|
      ensures ps[i].name in t.rows
    {
      assert ps[i] in multiset(sorted);
      var k :| 0 <= k < |sorted| && sorted[k] == ps[i];
    }
    forall l | l in t.rows
      ensures exists i :: 0 <= i < |ps| && ps[i].name == l
    {
      var k :| 0 <= k < |t.order| && t.order[k] == l;
      assert sorted[k] in multiset(ps);
      var i :| 0 <= i < |ps| && ps[i] == sorted[k];
    }
  }
}
