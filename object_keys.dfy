/**
 * The order in which a JavaScript object lists its own string keys
 * (OrdinaryOwnPropertyKeys, section 10.1.11.1 of ECMA-262): keys that are
 * array indices come first, in ascending numeric order, and every other key
 * follows in the order in which it was created. `Object.keys`, `for-in` and
 * `console.table` all list an object's keys in this order.
 */
module ObjectKeys {
  import opened JsParseInt

  /** 2^32 - 2, the largest array index (section 6.1.7 of ECMA-262). */
  const MaxArrayIndex: nat := 4294967294

  /**
   * The value of a string of decimal digits, most significant first; -1 when
   * some character is not a digit. It agrees with `DigitsValue` on digit
   * strings (`NumeralValueIsDigitsValue`), but needs no `AllDigits`
   * precondition: a test for array indices that unfolds one character at a
   * time keeps the proofs about key order cheap, where the quantifier in
   * `AllDigits` would be instantiated at every key.
   */
  function NumeralValue(k: string): int
  {
    if |k| == 0 then 0
    else
      var high := NumeralValue(k[..|k| - 1]);
      if high < 0 || !IsDigit(k[|k| - 1]) then -1 else high * 10 + (k[|k| - 1] as int - '0' as int)
  }

  /** `NumeralValue` is non-negative exactly on digit strings, where it is `parseInt`'s `DigitsValue`. */
  lemma {:induction false} NumeralValueIsDigitsValue(k: string)
    ensures NumeralValue(k) >= 0 <==> AllDigits(k)
    ensures AllDigits(k) ==> NumeralValue(k) == DigitsValue(k)
  {
    if |k| > 0 {
      var front := k[..|k| - 1];
      NumeralValueIsDigitsValue(front);
      assert AllDigits(k) <==> AllDigits(front) && IsDigit(k[|k| - 1]) by {
        if AllDigits(front) && IsDigit(k[|k| - 1]) {
          forall i | 0 <= i < |k| ensures IsDigit(k[i]) {
            if i < |k| - 1 { assert k[i] == front[i]; }
          }
        }
      }
    }
  }

  /** A canonical decimal numeral (no sign, no leading zero other than "0" itself) no larger than `MaxArrayIndex`. */
  predicate IsArrayIndex(k: string)
  {
    && |k| > 0
    && (k[0] == '0' ==> |k| == 1)
    && 0 <= NumeralValue(k) <= MaxArrayIndex
  }

  /** The number an array-index key stands for. */
  function IndexValue(k: string): nat
    requires IsArrayIndex(k)
  {
    NumeralValue(k)
  }

  /** The keys of `keys` that are array indices (`index`) or that are not (`!index`), in their order in `keys`. */
  function KeysWhere(keys: seq<string>, index: bool): (r: seq<string>)
    ensures forall i :: 0 <= i < |r| ==> IsArrayIndex(r[i]) == index
  {
    if keys == [] then []
    else (if IsArrayIndex(keys[0]) == index then [keys[0]] else []) + KeysWhere(keys[1..], index)
  }

  /** Array indices in ascending numeric order. */
  predicate AscendingIndices(s: seq<string>)
  {
    && (forall i :: 0 <= i < |s| ==> IsArrayIndex(s[i]))
    && forall i, j :: 0 <= i < j < |s| ==> IndexValue(s[i]) <= IndexValue(s[j])
  }

  /** Inserts the array index `k` into `s` before the first key of larger or equal value. */
  function InsertIndex(s: seq<string>, k: string): (r: seq<string>)
    requires IsArrayIndex(k) && forall i :: 0 <= i < |s| ==> IsArrayIndex(s[i])
    ensures |r| == |s| + 1 && multiset(r) == multiset(s) + multiset{k}
    ensures forall i :: 0 <= i < |r| ==> IsArrayIndex(r[i])
  {
    if s == [] || IndexValue(k) <= IndexValue(s[0]) then [k] + s
    else
      assert s == [s[0]] + s[1..];
      [s[0]] + InsertIndex(s[1..], k)
  }

  /** The array indices `s` in ascending numeric order. */
  function SortIndices(s: seq<string>): (r: seq<string>)
    requires forall i :: 0 <= i < |s| ==> IsArrayIndex(s[i])
    ensures |r| == |s| && multiset(r) == multiset(s)
    ensures forall i :: 0 <= i < |r| ==> IsArrayIndex(r[i])
  {
    if s == [] then []
    else
      assert s == [s[0]] + s[1..];
      InsertIndex(SortIndices(s[1..]), s[0])
  }

  /** The order in which an object whose keys were created in the order `created` lists them. */
  function Enumeration(created: seq<string>): seq<string>
  {
    SortIndices(KeysWhere(created, true)) + KeysWhere(created, false)
  }

  /** Inserting a key no smaller than `low` into keys no smaller than `low` gives keys no smaller than `low`. */
  lemma {:induction false} InsertIndexAbove(s: seq<string>, k: string, low: nat)
    requires IsArrayIndex(k) && low <= IndexValue(k)
    requires forall i :: 0 <= i < |s| ==> IsArrayIndex(s[i]) && low <= IndexValue(s[i])
    ensures forall i :: 0 <= i < |InsertIndex(s, k)| ==> low <= IndexValue(InsertIndex(s, k)[i])
  {
    if s != [] && IndexValue(k) > IndexValue(s[0]) {
      InsertIndexAbove(s[1..], k, low);
      var r := InsertIndex(s, k);
      assert r == [s[0]] + InsertIndex(s[1..], k);
      assert forall i :: 1 <= i < |r| ==> r[i] == InsertIndex(s[1..], k)[i - 1];
    }
  }

  /** An index no larger than any of the ascending indices `rest` can go in front of them. */
  lemma ConsAscending(x: string, rest: seq<string>)
    requires IsArrayIndex(x) && AscendingIndices(rest)
    requires forall i :: 0 <= i < |rest| ==> IndexValue(x) <= IndexValue(rest[i])
    ensures AscendingIndices([x] + rest)
  {
    var r := [x] + rest;
    forall i, j | 0 <= i < j < |r|
      ensures IndexValue(r[i]) <= IndexValue(r[j])
    {
      assert r[j] == rest[j - 1];
      if i > 0 {
        assert r[i] == rest[i - 1];
      }
    }
  }

  lemma {:induction false} InsertIndexAscending(s: seq<string>, k: string)
    requires IsArrayIndex(k) && AscendingIndices(s)
    ensures AscendingIndices(InsertIndex(s, k))
  {
    if s == [] || IndexValue(k) <= IndexValue(s[0]) {
      ConsAscending(k, s);
    } else {
      InsertIndexAscending(s[1..], k);
      InsertIndexAbove(s[1..], k, IndexValue(s[0]));
      ConsAscending(s[0], InsertIndex(s[1..], k));
    }
  }

  lemma {:induction false} SortIndicesAscending(s: seq<string>)
    requires forall i :: 0 <= i < |s| ==> IsArrayIndex(s[i])
    ensures AscendingIndices(SortIndices(s))
  {
    if s != [] {
      SortIndicesAscending(s[1..]);
      InsertIndexAscending(SortIndices(s[1..]), s[0]);
    }
  }

  /** Splitting the keys into array indices and the rest loses and adds nothing. */
  lemma {:induction false} KeysWhereSplit(keys: seq<string>)
    ensures multiset(KeysWhere(keys, true)) + multiset(KeysWhere(keys, false)) == multiset(keys)
  {
    if keys != [] {
      KeysWhereSplit(keys[1..]);
      assert keys == [keys[0]] + keys[1..];
    }
  }

  /** Only keys of `keys` are picked out. */
  lemma {:induction false} PickedFrom(keys: seq<string>, index: bool, i: nat)
    requires i < |KeysWhere(keys, index)|
    ensures exists m :: 0 <= m < |keys| && keys[m] == KeysWhere(keys, index)[i]
  {
    var rest := KeysWhere(keys[1..], index);
    if IsArrayIndex(keys[0]) == index {
      assert KeysWhere(keys, index) == [keys[0]] + rest;
      if i == 0 {
        assert keys[0] == KeysWhere(keys, index)[i];
      } else {
        PickedFrom(keys[1..], index, i - 1);
        var m :| 0 <= m < |keys[1..]| && keys[1..][m] == rest[i - 1];
        assert keys[m + 1] == KeysWhere(keys, index)[i];
      }
    } else {
      assert KeysWhere(keys, index) == rest;
      PickedFrom(keys[1..], index, i);
      var m :| 0 <= m < |keys[1..]| && keys[1..][m] == rest[i];
      assert keys[m + 1] == KeysWhere(keys, index)[i];
    }
  }

  /** The first key is related to every later key that is picked out. */
  lemma FirstBeforePicked(keys: seq<string>, index: bool, before: (string, string) -> bool, i: nat)
    requires keys != [] && forall i, j :: 0 <= i < j < |keys| ==> before(keys[i], keys[j])
    requires i < |KeysWhere(keys[1..], index)|
    ensures before(keys[0], KeysWhere(keys[1..], index)[i])
  {
    PickedFrom(keys[1..], index, i);
    var m :| 0 <= m < |keys[1..]| && keys[1..][m] == KeysWhere(keys[1..], index)[i];
    assert keys[m + 1] == keys[1..][m];
  }

  /** Picking out some of the keys keeps every relation that holds between earlier and later keys. */
  lemma {:induction false} KeysWhereKeepsOrder(keys: seq<string>, index: bool, before: (string, string) -> bool)
    requires forall i, j :: 0 <= i < j < |keys| ==> before(keys[i], keys[j])
    ensures forall i, j :: 0 <= i < j < |KeysWhere(keys, index)| ==>
              before(KeysWhere(keys, index)[i], KeysWhere(keys, index)[j])
  {
    if keys != [] {
      var tail := keys[1..];
      assert forall i, j :: 0 <= i < j < |tail| ==> before(tail[i], tail[j]) by {
        forall i, j | 0 <= i < j < |tail|
          ensures before(tail[i], tail[j])
        {
          assert tail[i] == keys[i + 1] && tail[j] == keys[j + 1];
        }
      }
      KeysWhereKeepsOrder(tail, index, before);
      var rest := KeysWhere(tail, index);
      var r := KeysWhere(keys, index);
      if IsArrayIndex(keys[0]) == index {
        assert r == [keys[0]] + rest;
        forall i, j | 0 <= i < j < |r|
          ensures before(r[i], r[j])
        {
          assert r[j] == rest[j - 1];
          if i == 0 {
            assert r[i] == keys[0];
            FirstBeforePicked(keys, index, before, j - 1);
          } else {
            assert r[i] == rest[i - 1] && before(rest[i - 1], rest[j - 1]);
          }
        }
      } else {
        assert r == rest;
      }
    }
  }

  /** The listing holds the created keys, each as often as it was created. */
  lemma EnumerationPermutes(created: seq<string>)
    ensures multiset(Enumeration(created)) == multiset(created)
  {
    KeysWhereSplit(created);
  }

  /** A key of the listing that is an array index sits in the listing's sorted head of such keys. */
  lemma IndexPosition(created: seq<string>, j: nat)
    requires j < |Enumeration(created)| && IsArrayIndex(Enumeration(created)[j])
    ensures j < |SortIndices(KeysWhere(created, true))|
    ensures forall m :: 0 <= m <= j ==> Enumeration(created)[m] == SortIndices(KeysWhere(created, true))[m]
  {
    var front := SortIndices(KeysWhere(created, true));
    assert Enumeration(created) == front + KeysWhere(created, false);
  }

  /** Array indices come first in the listing, in ascending numeric order. */
  lemma EnumerationIndicesFirst(created: seq<string>)
    ensures forall i, j :: 0 <= i < j < |Enumeration(created)| && IsArrayIndex(Enumeration(created)[j]) ==>
              IsArrayIndex(Enumeration(created)[i]) && IndexValue(Enumeration(created)[i]) <= IndexValue(Enumeration(created)[j])
  {
    var front := SortIndices(KeysWhere(created, true));
    SortIndicesAscending(KeysWhere(created, true));
    var e := Enumeration(created);
    forall i, j | 0 <= i < j < |e| && IsArrayIndex(e[j])
      ensures IsArrayIndex(e[i]) && IndexValue(e[i]) <= IndexValue(e[j])
    {
      IndexPosition(created, j);
      assert e[i] == front[i] && e[j] == front[j];
    }
  }

  /** A key of the listing that is not an array index sits in the listing's tail of such keys. */
  lemma NamedPosition(created: seq<string>, i: nat)
    requires i < |Enumeration(created)| && !IsArrayIndex(Enumeration(created)[i])
    ensures |KeysWhere(created, true)| <= i
    ensures i - |KeysWhere(created, true)| < |KeysWhere(created, false)|
    ensures Enumeration(created)[i] == KeysWhere(created, false)[i - |KeysWhere(created, true)|]
  {
    assert Enumeration(created) == SortIndices(KeysWhere(created, true)) + KeysWhere(created, false);
  }

  /** Keys that are not array indices keep, in the listing, every relation their creation order has. */
  lemma NamedKeysKeepOrder(created: seq<string>, before: (string, string) -> bool)
    requires forall i, j :: 0 <= i < j < |created| ==> before(created[i], created[j])
    ensures forall i, j ::
              (0 <= i < j < |Enumeration(created)| &&
               !IsArrayIndex(Enumeration(created)[i]) && !IsArrayIndex(Enumeration(created)[j])) ==>
              before(Enumeration(created)[i], Enumeration(created)[j])
  {
    var named := KeysWhere(created, false);
    assert forall a, b :: 0 <= a < b < |named| ==> before(named[a], named[b]) by {
      KeysWhereKeepsOrder(created, false, before);
    }
    var e := Enumeration(created);
    forall i, j | 0 <= i < j < |e| && !IsArrayIndex(e[i]) && !IsArrayIndex(e[j])
      ensures before(e[i], e[j])
    {
      NamedPosition(created, i);
      NamedPosition(created, j);
    }
  }

  /** Keys all of one kind are all picked out for that kind, and none for the other. */
  lemma {:induction false} KeysWhereAll(keys: seq<string>, index: bool)
    requires forall i :: 0 <= i < |keys| ==> IsArrayIndex(keys[i]) == index
    ensures KeysWhere(keys, index) == keys && KeysWhere(keys, !index) == []
  {
    if keys != [] {
      KeysWhereAll(keys[1..], index);
    }
  }

  /** An object none of whose keys is an array index lists them in creation order. */
  lemma EnumerationWithoutIndices(created: seq<string>)
    requires forall i :: 0 <= i < |created| ==> !IsArrayIndex(created[i])
    ensures Enumeration(created) == created
  {
    KeysWhereAll(created, false);
  }

  /** A one-digit numeral other than "0" is an array index standing for its digit. */
  lemma DigitIsIndex(d: char)
    requires '1' <= d <= '9'
    ensures IsArrayIndex([d]) && IndexValue([d]) == d as int - '0' as int
  {
    assert [d][..0] == [];
  }

  /** An object whose two array-index keys were created larger first lists the smaller first. */
  lemma SmallerIndexListedFirst(large: string, small: string)
    requires IsArrayIndex(large) && IsArrayIndex(small) && IndexValue(small) < IndexValue(large)
    ensures Enumeration([large, small]) == [small, large]
  {
    var keys := [large, small];
    KeysWhereAll(keys, true);
    assert keys[1..] == [small];
    assert SortIndices(keys) == InsertIndex(SortIndices([small]), large);
    SortTwoIndices(large, small);
  }

  /** Two array indices, inserted smaller first, are sorted smaller first. */
  lemma SortTwoIndices(large: string, small: string)
    requires IsArrayIndex(large) && IsArrayIndex(small) && IndexValue(small) < IndexValue(large)
    ensures InsertIndex(SortIndices([small]), large) == [small, large]
  {
    assert [small][1..] == [];
    assert SortIndices([small]) == [small];
    assert InsertIndex([small], large) == [small] + InsertIndex([], large);
  }
}
