/**
 * The per-series sort: the comparator the command hands to `Array.prototype.sort`,
 * a stable insertion sort that specifies that call, and the proofs that the result
 * is a permutation, ordered by the chosen statistic in the chosen direction, and
 * stable; and that these three facts leave only one possible result.
 *
 * The sorting theory is stated for any ranking of rows by a real number; the
 * comparator of the command is the difference of two such ranks (`CompareIsRankDifference`).
 */
module StatSort {
  import Stats

  /** Which statistic orders the table. */
  datatype SortType = Min | Max | Mean

  datatype SortDirection = Asc | Desc

  /** One labelled series (`name` is its label) with its statistics, as the per-series branch builds it. */
  datatype Processed = Processed(name: string, stats: Stats.DataPoint)

  /** The statistic a row is ordered by. */
  function GetSortableStat(data: Stats.DataPoint, sortType: SortType): real
  {
    match sortType
    case Min => data.min
    case Max => data.max
    case Mean => data.mean
  }

  /** The comparator: negative when `a` goes before `b`, zero when they tie. */
  function Compare(a: Processed, b: Processed, key: SortType, dir: SortDirection): real
  {
    var low := if dir == Asc then a else b;
    var high := if dir == Asc then b else a;
    GetSortableStat(low.stats, key) - GetSortableStat(high.stats, key)
  }

  /** A row's position on the sort axis: its statistic when ascending, the negated statistic when descending. */
  function Rank(p: Processed, key: SortType, dir: SortDirection): real
  {
    if dir == Asc then GetSortableStat(p.stats, key) else -GetSortableStat(p.stats, key)
  }

  /** The ranking a sort by `key` in direction `dir` follows. */
  function RankBy(key: SortType, dir: SortDirection): Processed -> real
  {
    p => Rank(p, key, dir)
  }

  /** The comparator is the difference of ranks, so it orders rows consistently. */
  lemma CompareIsRankDifference(a: Processed, b: Processed, key: SortType, dir: SortDirection)
    ensures Compare(a, b, key, dir) == RankBy(key, dir)(a) - RankBy(key, dir)(b)
    ensures Compare(a, b, key, dir) == -Compare(b, a, key, dir)
  {
  }

  /** No row is followed by a row of lower rank. */
  ghost predicate Sorted(s: seq<Processed>, rank: Processed -> real)
  {
    forall i, j :: 0 <= i < j < |s| ==> rank(s[i]) <= rank(s[j])
  }

  /** Inserts `x` into `s` from the back, passing only rows of strictly higher rank than `x`. */
  function Insert(s: seq<Processed>, x: Processed, rank: Processed -> real): (r: seq<Processed>)
    ensures multiset(r) == multiset(s) + multiset{x}
    ensures |r| == |s| + 1
    decreases |s|
  {
    if |s| == 0 then [x]
    else if rank(s[|s| - 1]) - rank(x) > 0.0 then
      assert s == s[..|s| - 1] + [s[|s| - 1]];
      Insert(s[..|s| - 1], x, rank) + [s[|s| - 1]]
    else s + [x]
  }

  /** The rows sorted stably by rank: each row in turn is inserted into the sorted rows before it. */
  function StableSort(s: seq<Processed>, rank: Processed -> real): (r: seq<Processed>)
    ensures multiset(r) == multiset(s)
    ensures |r| == |s|
  {
    if |s| == 0 then []
    else
      assert s == s[..|s| - 1] + [s[|s| - 1]];
      Insert(StableSort(s[..|s| - 1], rank), s[|s| - 1], rank)
  }

  /** The order `processed.sort(comparator)` leaves the rows in. */
  function SortRows(s: seq<Processed>, key: SortType, dir: SortDirection): seq<Processed>
  {
    StableSort(s, RankBy(key, dir))
  }

  /** The rows whose rank is `r`, in their order in `s`. */
  function Ties(s: seq<Processed>, rank: Processed -> real, r: real): seq<Processed>
  {
    if |s| == 0 then [] else Ties(s[..|s| - 1], rank, r) + Tie(s[|s| - 1], rank, r)
  }

  /** `[p]` when `p` has rank `r`, otherwise nothing. */
  function Tie(p: Processed, rank: Processed -> real, r: real): seq<Processed>
  {
    if rank(p) == r then [p] else []
  }

  /** Whether `t` is `s` sorted stably: same length, ordered, and every group of ties in its original order. */
  ghost predicate IsStableSortOf(t: seq<Processed>, s: seq<Processed>, rank: Processed -> real)
  {
    && |t| == |s|
    && Sorted(t, rank)
    && forall r :: Ties(t, rank, r) == Ties(s, rank, r)
  }

  /** Every tie of rank `r` is a row of `s` with rank `r`. */
  lemma {:induction false} TiesMember(s: seq<Processed>, rank: Processed -> real, r: real, x: Processed)
    requires x in Ties(s, rank, r)
    ensures x in s && rank(x) == r
  {
    var init := s[..|s| - 1];
    if x in Ties(init, rank, r) {
      TiesMember(init, rank, r, x);
      assert x in s[..|s| - 1];
    }
  }

  /** Every row of `s` with rank `r` is among the ties of rank `r`. */
  lemma {:induction false} TiesContain(s: seq<Processed>, rank: Processed -> real, r: real, i: nat)
    requires i < |s| && rank(s[i]) == r
    ensures s[i] in Ties(s, rank, r)
  {
    if i < |s| - 1 {
      TiesContain(s[..|s| - 1], rank, r, i);
    }
  }

  lemma {:induction false} InsertSorted(s: seq<Processed>, x: Processed, rank: Processed -> real)
    requires Sorted(s, rank)
    ensures Sorted(Insert(s, x, rank), rank)
    decreases |s|
  {
    if |s| > 0 {
      var init, last := s[..|s| - 1], s[|s| - 1];
      if rank(last) - rank(x) > 0.0 {
        assert Sorted(init, rank);
        InsertSorted(init, x, rank);
        var u := Insert(init, x, rank);
        var v := u + [last];
        assert Insert(s, x, rank) == v;
        forall i, j | 0 <= i < j < |v|
          ensures rank(v[i]) <= rank(v[j])
        {
          if j < |u| {
            assert v[i] == u[i] && v[j] == u[j];
          } else {
            assert v[i] == u[i] && v[j] == last;
            BelowLast(s, x, rank, u[i]);
          }
        }
      } else {
        var v := s + [x];
        assert Insert(s, x, rank) == v;
        forall i, j | 0 <= i < j < |v|
          ensures rank(v[i]) <= rank(v[j])
        {
          if j < |s| {
            assert v[i] == s[i] && v[j] == s[j];
          } else {
            assert v[i] == s[i] && v[j] == x;
            if i < |s| - 1 {
              assert rank(s[i]) <= rank(last);
            }
          }
        }
      }
    }
  }

  /** When `x` passes the last row of sorted `s`, each row of the shorter insertion ranks at most the last row. */
  lemma BelowLast(s: seq<Processed>, x: Processed, rank: Processed -> real, y: Processed)
    requires |s| > 0 && Sorted(s, rank)
    requires rank(s[|s| - 1]) - rank(x) > 0.0
    requires y in Insert(s[..|s| - 1], x, rank)
    ensures rank(y) <= rank(s[|s| - 1])
  {
    var init := s[..|s| - 1];
    assert y in multiset(Insert(init, x, rank));
    if y != x {
      assert y in multiset(init);
      var k :| 0 <= k < |init| && init[k] == y;
      assert s[k] == y;
    }
  }

  /** The sort's result is ordered by rank. */
  lemma {:induction false} StableSortSorted(s: seq<Processed>, rank: Processed -> real)
    ensures Sorted(StableSort(s, rank), rank)
  {
    if |s| > 0 {
      StableSortSorted(s[..|s| - 1], rank);
      InsertSorted(StableSort(s[..|s| - 1], rank), s[|s| - 1], rank);
    }
  }

  lemma TiesSnoc(s: seq<Processed>, p: Processed, rank: Processed -> real, r: real)
    ensures Ties(s + [p], rank, r) == Ties(s, rank, r) + Tie(p, rank, r)
  {
    assert (s + [p])[..|s|] == s;
  }

  lemma {:induction false} TiesOfInsert(s: seq<Processed>, x: Processed, rank: Processed -> real, r: real)
    ensures Ties(Insert(s, x, rank), rank, r) == Ties(s, rank, r) + Tie(x, rank, r)
    decreases |s|
  {
    if |s| == 0 {
      TiesSnoc([], x, rank, r);
    } else if rank(s[|s| - 1]) - rank(x) > 0.0 {
      var init, last := s[..|s| - 1], s[|s| - 1];
      var u := Insert(init, x, rank);
      calc {
        Ties(Insert(s, x, rank), rank, r);
      == { InsertPasses(s, x, rank); }
        Ties(u + [last], rank, r);
      == { TiesSnoc(u, last, rank, r); }
        Ties(u, rank, r) + Tie(last, rank, r);
      == { TiesOfInsert(init, x, rank, r); }
        Ties(init, rank, r) + Tie(x, rank, r) + Tie(last, rank, r);
      == { TieSwap(Ties(init, rank, r), x, last, rank, r); }
        Ties(init, rank, r) + Tie(last, rank, r) + Tie(x, rank, r);
      }
    } else {
      assert Insert(s, x, rank) == s + [x];
      TiesSnoc(s, x, rank, r);
    }
  }

  /** Rows of different rank cannot both tie at `r`, so their ties commute. */
  lemma TieSwap(t: seq<Processed>, p: Processed, q: Processed, rank: Processed -> real, r: real)
    requires rank(p) != rank(q)
    ensures t + Tie(p, rank, r) + Tie(q, rank, r) == t + Tie(q, rank, r) + Tie(p, rank, r)
  {
    if rank(p) == r {
      assert Tie(q, rank, r) == [];
      assert t + Tie(p, rank, r) + [] == t + [] + Tie(p, rank, r);
    } else {
      assert Tie(p, rank, r) == [];
      assert t + [] + Tie(q, rank, r) == t + Tie(q, rank, r) + [];
    }
  }

  /** Rows with equal rank leave the sort in the order they entered it. */
  lemma {:induction false} StableSortKeepsTies(s: seq<Processed>, rank: Processed -> real, r: real)
    ensures Ties(StableSort(s, rank), rank, r) == Ties(s, rank, r)
  {
    if |s| > 0 {
      StableSortKeepsTies(s[..|s| - 1], rank, r);
      TiesOfInsert(StableSort(s[..|s| - 1], rank), s[|s| - 1], rank, r);
    }
  }

  /** The sort's result is a stable sort of its input. */
  lemma StableSortIsStableSort(s: seq<Processed>, rank: Processed -> real)
    ensures IsStableSortOf(StableSort(s, rank), s, rank)
  {
    StableSortSorted(s, rank);
    forall r
      ensures Ties(StableSort(s, rank), rank, r) == Ties(s, rank, r)
    {
      StableSortKeepsTies(s, rank, r);
    }
  }

  /**
   * What the command relies on from its sort: the rows are a permutation of the
   * input, the chosen statistic never decreases (ascending) or never increases
   * (descending), and rows with equal statistic keep their input order.
   */
  lemma SortGuarantees(s: seq<Processed>, key: SortType, dir: SortDirection)
    ensures multiset(SortRows(s, key, dir)) == multiset(s)
    ensures var t := SortRows(s, key, dir);
            forall i, j :: 0 <= i < j < |t| ==>
              if dir == Asc then GetSortableStat(t[i].stats, key) <= GetSortableStat(t[j].stats, key)
              else GetSortableStat(t[i].stats, key) >= GetSortableStat(t[j].stats, key)
    ensures forall r :: Ties(SortRows(s, key, dir), RankBy(key, dir), r) == Ties(s, RankBy(key, dir), r)
  {
    StableSortIsStableSort(s, RankBy(key, dir));
  }

  /** Two sorted sequences of the same length whose groups of ties agree are equal. */
  lemma {:induction false} SortedTiesDetermine(t: seq<Processed>, u: seq<Processed>, rank: Processed -> real)
    requires |t| == |u| && Sorted(t, rank) && Sorted(u, rank)
    requires forall r :: Ties(t, rank, r) == Ties(u, rank, r)
    ensures t == u
    decreases |t|
  {
    if |t| > 0 {
      var n := |t| - 1;
      var ta, ua := t[..n], u[..n];
      LastRanksAgree(t, u, rank);
      var m := rank(t[n]);
      LastTie(t, rank);
      LastTie(u, rank);
      SnocInjective(Ties(ta, rank, m), Ties(ua, rank, m), t[n], u[n]);
      forall r
        ensures Ties(ta, rank, r) == Ties(ua, rank, r)
      {
        if r != m {
          OtherTies(t, rank, r);
          OtherTies(u, rank, r);
        }
      }
      assert Sorted(ta, rank) && Sorted(ua, rank);
      SortedTiesDetermine(ta, ua, rank);
      assert t == ta + [t[n]] && u == ua + [u[n]];
    }
  }

  /** Sorted sequences with the same ties end in rows of the same rank: the largest rank present. */
  lemma LastRanksAgree(t: seq<Processed>, u: seq<Processed>, rank: Processed -> real)
    requires |t| == |u| > 0 && Sorted(t, rank) && Sorted(u, rank)
    requires forall r :: Ties(t, rank, r) == Ties(u, rank, r)
    ensures rank(t[|t| - 1]) == rank(u[|u| - 1])
  {
    var n := |t| - 1;
    TiesContain(t, rank, rank(t[n]), n);
    assert t[n] in Ties(u, rank, rank(t[n]));
    TiesMember(u, rank, rank(t[n]), t[n]);
    TiesContain(u, rank, rank(u[n]), n);
    assert u[n] in Ties(t, rank, rank(u[n]));
    TiesMember(t, rank, rank(u[n]), u[n]);
  }

  lemma LastTie(t: seq<Processed>, rank: Processed -> real)
    requires |t| > 0
    ensures Ties(t, rank, rank(t[|t| - 1])) == Ties(t[..|t| - 1], rank, rank(t[|t| - 1])) + [t[|t| - 1]]
  {
  }

  lemma OtherTies(t: seq<Processed>, rank: Processed -> real, r: real)
    requires |t| > 0 && rank(t[|t| - 1]) != r
    ensures Ties(t, rank, r) == Ties(t[..|t| - 1], rank, r)
  {
  }

  lemma SnocInjective(x: seq<Processed>, y: seq<Processed>, a: Processed, b: Processed)
    requires x + [a] == y + [b]
    ensures x == y && a == b
  {
    assert (x + [a])[..|x|] == x;
    assert (y + [b])[..|y|] == y;
  }

  /**
   * The sort's result is the only stable sort of its input: any sort routine that
   * is stable under this comparator, whatever its algorithm, produces `StableSort`.
   */
  lemma StableSortCharacterized(s: seq<Processed>, t: seq<Processed>, rank: Processed -> real)
    ensures IsStableSortOf(t, s, rank) <==> t == StableSort(s, rank)
  {
    StableSortIsStableSort(s, rank);
    if IsStableSortOf(t, s, rank) {
      SortedTiesDetermine(t, StableSort(s, rank), rank);
    }
  }

  /** The rows in reverse order. */
  function Reverse(s: seq<Processed>): (r: seq<Processed>)
    ensures |r| == |s|
    ensures forall i :: 0 <= i < |s| ==> r[i] == s[|s| - 1 - i]
  {
    seq(|s|, i requires 0 <= i < |s| => s[|s| - 1 - i])
  }

  /** No two rows share the value of the chosen statistic. */
  ghost predicate DistinctStats(s: seq<Processed>, key: SortType)
  {
    forall i, j :: 0 <= i < j < |s| ==> GetSortableStat(s[i].stats, key) != GetSortableStat(s[j].stats, key)
  }

  lemma {:induction false} TiesOfConcat(a: seq<Processed>, b: seq<Processed>, rank: Processed -> real, r: real)
    ensures Ties(a + b, rank, r) == Ties(a, rank, r) + Ties(b, rank, r)
    decreases |b|
  {
    if |b| == 0 {
      assert a + b == a;
    } else {
      var init, last := b[..|b| - 1], b[|b| - 1];
      calc {
        Ties(a + b, rank, r);
      == { assert a + b == (a + init) + [last]; TiesSnoc(a + init, last, rank, r); }
        Ties(a + init, rank, r) + Tie(last, rank, r);
      == { TiesOfConcat(a, init, rank, r); }
        Ties(a, rank, r) + Ties(init, rank, r) + Tie(last, rank, r);
      == { assert b == init + [last]; TiesSnoc(init, last, rank, r); }
        Ties(a, rank, r) + Ties(b, rank, r);
      }
    }
  }

  lemma ReverseSnoc(s: seq<Processed>, p: Processed)
    ensures Reverse(s + [p]) == [p] + Reverse(s)
  {
  }

  lemma ReverseOfConcat(a: seq<Processed>, b: seq<Processed>)
    ensures Reverse(a + b) == Reverse(b) + Reverse(a)
  {
  }

  lemma {:induction false} TiesOfReverse(s: seq<Processed>, rank: Processed -> real, r: real)
    ensures Ties(Reverse(s), rank, r) == Reverse(Ties(s, rank, r))
    decreases |s|
  {
    if |s| > 0 {
      var init, last := s[..|s| - 1], s[|s| - 1];
      assert s == init + [last];
      TiesOfReverse(init, rank, r);
      ReverseSnoc(init, last);
      TiesOfConcat([last], Reverse(init), rank, r);
      TiesSnoc([], last, rank, r);
      var f := Tie(last, rank, r);
      TiesSnoc(init, last, rank, r);
      ReverseOfConcat(Ties(init, rank, r), f);
      assert Reverse(f) == f;
    }
  }

  /** Ties under a ranking are the ties of the negated rank under the negated ranking. */
  lemma {:induction false} TiesOfNegated(s: seq<Processed>, rank: Processed -> real, negated: Processed -> real, r: real)
    requires forall p :: negated(p) == -rank(p)
    ensures Ties(s, negated, r) == Ties(s, rank, -r)
  {
    if |s| > 0 {
      TiesOfNegated(s[..|s| - 1], rank, negated, r);
    }
  }

  /** Without repeated ranks each group of ties has at most one row. */
  lemma {:induction false} TiesOfDistinct(s: seq<Processed>, rank: Processed -> real, r: real)
    requires forall i, j :: 0 <= i < j < |s| ==> rank(s[i]) != rank(s[j])
    ensures |Ties(s, rank, r)| <= 1
  {
    if |s| > 0 {
      var init, last := s[..|s| - 1], s[|s| - 1];
      TiesOfDistinct(init, rank, r);
      if rank(last) == r && |Ties(init, rank, r)| > 0 {
        var y := Ties(init, rank, r)[0];
        TiesMember(init, rank, r, y);
        assert false;
      }
    }
  }

  /** Absent ties, sorting by the negated ranking gives exactly the reverse order. */
  lemma NegatedRankReverses(s: seq<Processed>, up: Processed -> real, down: Processed -> real)
    requires forall p :: down(p) == -up(p)
    requires forall i, j :: 0 <= i < j < |s| ==> up(s[i]) != up(s[j])
    ensures StableSort(s, down) == Reverse(StableSort(s, up))
  {
    var u := StableSort(s, up);
    var t := Reverse(u);
    StableSortSorted(s, up);
    ReverseSortedNegated(u, up, down);
    forall r
      ensures Ties(t, down, r) == Ties(s, down, r)
    {
      ReversedTies(s, up, down, r);
    }
    StableSortCharacterized(s, t, down);
  }

  /** A sequence sorted by a ranking, reversed, is sorted by the negated ranking. */
  lemma ReverseSortedNegated(u: seq<Processed>, up: Processed -> real, down: Processed -> real)
    requires forall p :: down(p) == -up(p)
    requires Sorted(u, up)
    ensures Sorted(Reverse(u), down)
  {
    var t := Reverse(u);
    forall i, j | 0 <= i < j < |t|
      ensures down(t[i]) <= down(t[j])
    {
      assert up(u[|u| - 1 - j]) <= up(u[|u| - 1 - i]);
    }
  }

  /** Absent ties, the reversed ascending sort has the same (at most one-row) groups of ties as the input. */
  lemma ReversedTies(s: seq<Processed>, up: Processed -> real, down: Processed -> real, r: real)
    requires forall p :: down(p) == -up(p)
    requires forall i, j :: 0 <= i < j < |s| ==> up(s[i]) != up(s[j])
    ensures Ties(Reverse(StableSort(s, up)), down, r) == Ties(s, down, r)
  {
    var u := StableSort(s, up);
    var g := Ties(s, up, -r);
    TiesOfDistinct(s, up, -r);
    SmallReverse(g);
    calc {
      Ties(Reverse(u), down, r);
      { TiesOfNegated(Reverse(u), up, down, r); }
      Ties(Reverse(u), up, -r);
      { TiesOfReverse(u, up, -r); }
      Reverse(Ties(u, up, -r));
      { StableSortKeepsTies(s, up, -r); }
      Reverse(g);
      g;
      { TiesOfNegated(s, up, down, r); }
      Ties(s, down, r);
    }
  }

  lemma SmallReverse(g: seq<Processed>)
    requires |g| <= 1
    ensures Reverse(g) == g
  {
  }

  /** Absent ties, sorting descending gives exactly the reverse of sorting ascending. */
  lemma DescReversesAsc(s: seq<Processed>, key: SortType)
    requires DistinctStats(s, key)
    ensures SortRows(s, key, Desc) == Reverse(SortRows(s, key, Asc))
  {
    var up, down := RankBy(key, Asc), RankBy(key, Desc);
    assert forall p :: down(p) == -up(p);
    assert forall i, j :: 0 <= i < j < |s| ==> up(s[i]) != up(s[j]);
    NegatedRankReverses(s, up, down);
  }

  /**
   * Where insertion puts `x`: after the rows up to position `j`, when every row from
   * `j` on outranks `x` and the row before `j` (if any) does not.
   */
  lemma {:induction false} InsertSplit(sorted: seq<Processed>, j: nat, x: Processed, rank: Processed -> real)
    requires j <= |sorted|
    requires forall k :: j <= k < |sorted| ==> rank(sorted[k]) - rank(x) > 0.0
    requires j == 0 || rank(sorted[j - 1]) - rank(x) <= 0.0
    ensures Insert(sorted, x, rank) == sorted[..j] + [x] + sorted[j..]
    decreases |sorted|
  {
    if j < |sorted| {
      var n := |sorted| - 1;
      var init, last := sorted[..n], sorted[n];
      calc {
        Insert(sorted, x, rank);
      == { InsertPasses(sorted, x, rank); }
        Insert(init, x, rank) + [last];
      == { InsertSplit(init, j, x, rank); }
        init[..j] + [x] + init[j..] + [last];
      == { SplitSnoc(init, last, j, x); assert init + [last] == sorted; }
        sorted[..j] + [x] + sorted[j..];
      }
    } else {
      assert sorted[..j] == sorted && sorted[j..] == [];
    }
  }

  lemma InsertPasses(s: seq<Processed>, x: Processed, rank: Processed -> real)
    requires |s| > 0 && rank(s[|s| - 1]) - rank(x) > 0.0
    ensures s == s[..|s| - 1] + [s[|s| - 1]]
    ensures Insert(s, x, rank) == Insert(s[..|s| - 1], x, rank) + [s[|s| - 1]]
  {
  }

  lemma SplitSnoc(init: seq<Processed>, last: Processed, j: nat, x: Processed)
    requires j <= |init|
    ensures init[..j] + [x] + init[j..] + [last] == (init + [last])[..j] + [x] + (init + [last])[j..]
  {
    assert (init + [last])[..j] == init[..j];
    assert (init + [last])[j..] == init[j..] + [last];
  }

  /** One pass of the outer loop: inserting the next row extends the sorted prefix by one. */
  lemma SortStep(input: seq<Processed>, before: seq<Processed>, after: seq<Processed>, i: nat, rank: Processed -> real)
    requires i < |input| == |before| == |after|
    requires before[..i] == StableSort(input[..i], rank) && before[i..] == input[i..]
    requires after[..i + 1] == Insert(before[..i], before[i], rank) && after[i + 1..] == before[i + 1..]
    ensures after[..i + 1] == StableSort(input[..i + 1], rank) && after[i + 1..] == input[i + 1..]
  {
    assert before[i] == before[i..][0] == input[i..][0] == input[i];
    SortPrefix(input, i, rank);
    assert before[i + 1..] == before[i..][1..] == input[i..][1..] == input[i + 1..];
  }

  /** Sorting one more row inserts it into the sorted rows before it. */
  lemma SortPrefix(input: seq<Processed>, i: nat, rank: Processed -> real)
    requires i < |input|
    ensures StableSort(input[..i + 1], rank) == Insert(StableSort(input[..i], rank), input[i], rank)
  {
    assert input[..i + 1][..i] == input[..i];
  }

  /** The rows after the insertion loop: the rows before the gap, `x`, then the shifted rows. */
  lemma Assemble(b: seq<Processed>, sorted: seq<Processed>, j: nat, x: Processed)
    requires j <= |sorted| && |b| == |sorted| + 1
    requires forall k :: 0 <= k < j ==> b[k] == sorted[k]
    requires b[j] == x
    requires forall k :: j < k < |b| ==> b[k] == sorted[k - 1]
    ensures b == sorted[..j] + [x] + sorted[j..]
  {
  }

  /** No two rows carry the same label, as the keys of a JavaScript object never do. */
  ghost predicate DistinctNames(s: seq<Processed>)
  {
    forall i, j :: 0 <= i < j < |s| ==> s[i].name != s[j].name
  }

  lemma {:induction false} InsertDistinct(s: seq<Processed>, x: Processed, rank: Processed -> real)
    requires DistinctNames(s)
    requires forall k :: 0 <= k < |s| ==> s[k].name != x.name
    ensures DistinctNames(Insert(s, x, rank))
    decreases |s|
  {
    if |s| == 0 {
      DistinctSnoc([], x);
    } else if rank(s[|s| - 1]) - rank(x) > 0.0 {
      var init, last := s[..|s| - 1], s[|s| - 1];
      InsertPasses(s, x, rank);
      InsertDistinct(init, x, rank);
      var u := Insert(init, x, rank);
      forall k | 0 <= k < |u|
        ensures u[k].name != last.name
      {
        assert u[k] in multiset(u);
        if u[k] != x {
          assert u[k] in multiset(init);
          var m :| 0 <= m < |init| && init[m] == u[k];
          assert s[m] == u[k];
        }
      }
      DistinctSnoc(u, last);
    } else {
      assert Insert(s, x, rank) == s + [x];
      DistinctSnoc(s, x);
    }
  }

  lemma DistinctSnoc(s: seq<Processed>, p: Processed)
    requires DistinctNames(s)
    requires forall k :: 0 <= k < |s| ==> s[k].name != p.name
    ensures DistinctNames(s + [p])
  {
    var v := s + [p];
    forall i, j | 0 <= i < j < |v|
      ensures v[i].name != v[j].name
    {
      assert v[i] == s[i];
      if j < |s| {
        assert v[j] == s[j];
      }
    }
  }

  /** Sorting never puts two rows with the same label into the result. */
  lemma {:induction false} StableSortDistinct(s: seq<Processed>, rank: Processed -> real)
    requires DistinctNames(s)
    ensures DistinctNames(StableSort(s, rank))
  {
    if |s| > 0 {
      var init, last := s[..|s| - 1], s[|s| - 1];
      StableSortDistinct(init, rank);
      var u := StableSort(init, rank);
      forall k | 0 <= k < |u|
        ensures u[k].name != last.name
      {
        assert u[k] in multiset(init);
        var m :| 0 <= m < |init| && init[m] == u[k];
        assert s[m] == u[k];
      }
      InsertDistinct(u, last, rank);
    }
  }

  /**
   * `processed.sort(comparator)`: sorts the rows in place by insertion, shifting
   * every row the comparator puts strictly after the one being placed.
   */
  method SortInPlace(a: array<Processed>, key: SortType, dir: SortDirection)
    modifies a
    ensures a[..] == SortRows(old(a[..]), key, dir)
  {
    ghost var rank := RankBy(key, dir);
    ghost var input := a[..];
    var i := 0;
    while i < a.Length
      invariant 0 <= i <= a.Length
      invariant a[..i] == StableSort(input[..i], rank)
      invariant a[i..] == input[i..]
    {
      ghost var before := a[..];
      InsertAt(a, i, key, dir);
      SortStep(input, before, a[..], i, rank);
      i := i + 1;
    }
    assert a[..a.Length] == a[..];
    assert input[..a.Length] == input;
  }

  /** One pass of the insertion sort: moves `a[i]` left past every row the comparator puts strictly after it. */
  method InsertAt(a: array<Processed>, i: nat, key: SortType, dir: SortDirection)
    requires i < a.Length
    modifies a
    ensures a[..i + 1] == Insert(old(a[..i]), old(a[i]), RankBy(key, dir))
    ensures a[i + 1..] == old(a[i + 1..])
  {
    ghost var sorted := a[..i];
    var j := PlaceRow(a, i, sorted, key, dir);
    ghost var b := a[..i + 1];
    assert forall k :: 0 <= k < j ==> b[k] == sorted[k];
    assert forall k :: j < k < |b| ==> b[k] == sorted[k - 1];
    InsertionPlaced(b, sorted, j, old(a[i]), key, dir);
    assert a[i + 1..] == old(a[i + 1..]);
  }

  /**
   * The comparator loop: each row of `sorted`, the rows before position `i`, that
   * compares above the row at `i` moves one place up, and that row fills the gap `j`.
   */
  method PlaceRow(a: array<Processed>, i: nat, ghost sorted: seq<Processed>, key: SortType, dir: SortDirection)
    returns (j: nat)
    requires i < a.Length && sorted == a[..i]
    modifies a
    ensures j <= i && a[j] == old(a[i])
    ensures forall k :: 0 <= k < j ==> a[k] == sorted[k]
    ensures forall k :: j < k <= i ==> a[k] == sorted[k - 1]
    ensures forall k :: j <= k < i ==> Compare(sorted[k], old(a[i]), key, dir) > 0.0
    ensures j == 0 || Compare(sorted[j - 1], old(a[i]), key, dir) <= 0.0
    ensures forall k :: i < k < a.Length ==> a[k] == old(a[k])
  {
    var x := a[i];
    j := i;
    while j > 0 && Compare(a[j - 1], x, key, dir) > 0.0
      invariant 0 <= j <= i
      invariant forall k :: 0 <= k < j ==> a[k] == sorted[k]
      invariant forall k :: j < k <= i ==> a[k] == sorted[k - 1]
      invariant forall k :: j <= k < i ==> Compare(sorted[k], x, key, dir) > 0.0
      invariant forall k :: i < k < a.Length ==> a[k] == old(a[k])
    {
      a[j] := a[j - 1];
      j := j - 1;
    }
    a[j] := x;
  }

  /** The rows the insertion loop leaves: `x` after every row that does not compare above it, before the shifted rows that do. */
  lemma InsertionPlaced(b: seq<Processed>, sorted: seq<Processed>, j: nat, x: Processed, key: SortType, dir: SortDirection)
    requires j <= |sorted| && |b| == |sorted| + 1
    requires forall k :: 0 <= k < j ==> b[k] == sorted[k]
    requires b[j] == x
    requires forall k :: j < k < |b| ==> b[k] == sorted[k - 1]
    requires forall k :: j <= k < |sorted| ==> Compare(sorted[k], x, key, dir) > 0.0
    requires j == 0 || Compare(sorted[j - 1], x, key, dir) <= 0.0
    ensures b == Insert(sorted, x, RankBy(key, dir))
  {
    var rank := RankBy(key, dir);
    forall k | j <= k < |sorted|
      ensures rank(sorted[k]) - rank(x) > 0.0
    {
      CompareIsRankDifference(sorted[k], x, key, dir);
    }
    if j > 0 {
      CompareIsRankDifference(sorted[j - 1], x, key, dir);
    }
    InsertSplit(sorted, j, x, rank);
    Assemble(b, sorted, j, x);
  }
}
