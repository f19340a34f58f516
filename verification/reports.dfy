/**
 * The counting and summing behind the reports: rest-hour violations per
 * month, days covered per month, and hours worked and overtime per month,
 * per position, and per position and month. A group is the pages whose key
 * equals the group's key; the month of a page is taken as an input.
 */
module Reports {
  import opened Rest
  import opened Record
  import opened Extract
  import opened Chart

  /** The months a report has a column for. */
  const Months: seq<int> := [1, 2, 3, 4, 5, 6, 7, 8, 9, 10, 11, 12]

  /** The month of a page is one of the twelve report months. */
  predicate InMonths(month: int)
  {
    1 <= month <= 12
  }

  /** Limits of the rest-hour rules: 10 hours in any 24, 77 hours in any 7 days. */
  const Limit24h: real := 10.0
  const Limit7d: real := 77.0

  // ---------------------------------------------------------------------
  // Sums and selection
  // ---------------------------------------------------------------------

  function SumReal(xs: seq<real>): real
  {
    if |xs| == 0 then 0.0 else SumReal(xs[..|xs| - 1]) + xs[|xs| - 1]
  }

  function SumInt(xs: seq<int>): int
  {
    if |xs| == 0 then 0 else SumInt(xs[..|xs| - 1]) + xs[|xs| - 1]
  }

  lemma {:induction false} SumRealSnoc(xs: seq<real>, x: real)
    ensures SumReal(xs + [x]) == SumReal(xs) + x
  {
    assert (xs + [x])[..|xs|] == xs;
  }

  /** The indices of the pages whose key equals `k`, in increasing order. */
  function Matching<K(==)>(keys: seq<K>, k: K): (idx: seq<nat>)
    ensures forall j :: 0 <= j < |idx| ==> idx[j] < |keys| && keys[idx[j]] == k
    ensures forall j1, j2 :: 0 <= j1 < j2 < |idx| ==> idx[j1] < idx[j2]
  {
    if |keys| == 0 then []
    else
      var n := |keys| - 1;
      var front := Matching(keys[..n], k);
      if keys[n] == k then front + [n] else front
  }

  /** Every page whose key equals `k` is among the matching indices. */
  lemma {:induction false} MatchingComplete<K>(keys: seq<K>, k: K, i: int)
    requires 0 <= i < |keys| && keys[i] == k
    ensures i in Matching(keys, k)
  {
    var n := |keys| - 1;
    if i < n {
      MatchingComplete(keys[..n], k, i);
    }
  }

  /**
   * The entries of `xs` whose key equals `k`, in their original order: entry
   * `j` of the result is the entry of the `j`-th matching page.
   */
  function Select<K(==), T>(keys: seq<K>, k: K, xs: seq<T>): (ys: seq<T>)
    requires |keys| == |xs|
    ensures |ys| <= |xs|
  {
    if |xs| == 0 then []
    else
      var n := |xs| - 1;
      var front := Select(keys[..n], k, xs[..n]);
      if keys[n] == k then front + [xs[n]] else front
  }

  /** The selection holds one entry per matching page, in page order, and nothing else. */
  lemma {:induction false} SelectPicksMatching<K, T>(keys: seq<K>, k: K, xs: seq<T>)
    requires |keys| == |xs|
    ensures |Select(keys, k, xs)| == |Matching(keys, k)|
    ensures forall j :: 0 <= j < |Select(keys, k, xs)| ==> Select(keys, k, xs)[j] == xs[Matching(keys, k)[j]]
  {
    if |xs| > 0 {
      var n := |xs| - 1;
      SelectPicksMatching(keys[..n], k, xs[..n]);
      var front := Select(keys[..n], k, xs[..n]);
      assert forall j :: 0 <= j < |front| ==> front[j] == xs[Matching(keys[..n], k)[j]];
    }
  }

  /** Page `i` is in the group exactly when its key equals `k`. */
  lemma {:induction false} SelectMembers<K, T>(keys: seq<K>, k: K, xs: seq<T>, i: int)
    requires |keys| == |xs| && 0 <= i < |xs| && keys[i] == k
    ensures xs[i] in Select(keys, k, xs)
  {
    var n := |xs| - 1;
    if i < n {
      SelectMembers(keys[..n], k, xs[..n], i);
    }
  }

  predicate Distinct<K(==)>(ks: seq<K>)
  {
    forall i, j :: 0 <= i < j < |ks| ==> ks[i] != ks[j]
  }

  /** The sum, over the keys of `ks`, of each key's group sum. */
  function SumOverGroups<K(==)>(ks: seq<K>, keys: seq<K>, vals: seq<real>): real
    requires |keys| == |vals|
  {
    if |ks| == 0 then 0.0
    else SumOverGroups(ks[..|ks| - 1], keys, vals) + SumReal(Select(keys, ks[|ks| - 1], vals))
  }

  /** How much the group sums over `ks` grow when one more page, with key `kl` and value `vl`, is added. */
  lemma {:induction false} SumOverGroupsSnoc<K>(ks: seq<K>, keys: seq<K>, vals: seq<real>, kl: K, vl: real)
    requires |keys| == |vals|
    requires Distinct(ks)
    ensures SumOverGroups(ks, keys + [kl], vals + [vl]) == SumOverGroups(ks, keys, vals) + (if kl in ks then vl else 0.0)
    decreases |ks|
  {
    if |ks| > 0 {
      var n := |ks| - 1;
      var front := ks[..n];
      assert Distinct(front);
      SumOverGroupsSnoc(front, keys, vals, kl, vl);
      SelectSnocSum(keys, ks[n], vals, kl, vl);
      assert kl in ks <==> kl in front || kl == ks[n];
      assert kl == ks[n] ==> kl !in front;
    }
  }

  /**
   * When the keys of `ks` are distinct and every page's key is among them,
   * the group sums add up to the sum over all pages: each page is counted in
   * exactly one group.
   */
  lemma {:induction false} PartitionSum<K>(ks: seq<K>, keys: seq<K>, vals: seq<real>)
    requires |keys| == |vals|
    requires Distinct(ks)
    requires forall i :: 0 <= i < |keys| ==> keys[i] in ks
    ensures SumOverGroups(ks, keys, vals) == SumReal(vals)
    decreases |vals|
  {
    if |vals| == 0 {
      EmptyGroups(ks, keys, vals);
    } else {
      var n := |vals| - 1;
      assert SumOverGroups(ks, keys[..n], vals[..n]) == SumReal(vals[..n]) by {
        forall i | 0 <= i < n ensures keys[..n][i] in ks {
          assert keys[..n][i] == keys[i];
        }
        PartitionSum(ks, keys[..n], vals[..n]);
      }
      assert SumOverGroups(ks, keys, vals) == SumOverGroups(ks, keys[..n], vals[..n]) + vals[n] by {
        SumOverGroupsLast(ks, keys, vals);
        assert keys[n] in ks;
      }
    }
  }

  /** The group sums over `ks` as the sums over all pages but the last, plus the last page's value when its key is in `ks`. */
  lemma {:induction false} SumOverGroupsLast<K>(ks: seq<K>, keys: seq<K>, vals: seq<real>)
    requires |keys| == |vals| > 0
    requires Distinct(ks)
    ensures var n := |vals| - 1;
      SumOverGroups(ks, keys, vals) == SumOverGroups(ks, keys[..n], vals[..n]) + (if keys[n] in ks then vals[n] else 0.0)
  {
    var n := |vals| - 1;
    SumOverGroupsSnoc(ks, keys[..n], vals[..n], keys[n], vals[n]);
    assert keys[..n] + [keys[n]] == keys && vals[..n] + [vals[n]] == vals;
  }

  lemma {:induction false} EmptyGroups<K>(ks: seq<K>, keys: seq<K>, vals: seq<real>)
    requires |keys| == |vals| == 0
    ensures SumOverGroups(ks, keys, vals) == 0.0
    decreases |ks|
  {
    if |ks| > 0 {
      EmptyGroups(ks[..|ks| - 1], keys, vals);
    }
  }

  /** Integer counts seen as reals, so that the group sums above apply to them. */
  function AsReals(xs: seq<int>): (ys: seq<real>)
    ensures |ys| == |xs|
    ensures forall i :: 0 <= i < |xs| ==> ys[i] == xs[i] as real
  {
    seq(|xs|, i requires 0 <= i < |xs| => xs[i] as real)
  }

  /** Summing commutes with the conversion to reals. */
  lemma {:induction false} SumIntAsReal(xs: seq<int>)
    ensures SumInt(xs) as real == SumReal(AsReals(xs))
  {
    if |xs| > 0 {
      var n := |xs| - 1;
      SumIntAsReal(xs[..n]);
      assert AsReals(xs)[..n] == AsReals(xs[..n]);
    }
  }

  /** Selecting commutes with the conversion to reals. */
  lemma {:induction false} SelectAsReals<K>(keys: seq<K>, k: K, xs: seq<int>)
    requires |keys| == |xs|
    ensures Select(keys, k, AsReals(xs)) == AsReals(Select(keys, k, xs))
  {
    if |xs| > 0 {
      var n := |xs| - 1;
      SelectAsReals(keys[..n], k, xs[..n]);
      assert AsReals(xs)[..n] == AsReals(xs[..n]);
      var front := Select(keys[..n], k, xs[..n]);
      assert AsReals(front + [xs[n]]) == AsReals(front) + [xs[n] as real];
    }
  }

  /** For each key of `ks`, the sum of the entries whose key it is. */
  function GroupCounts<K(==)>(ks: seq<K>, keys: seq<K>, xs: seq<int>): (cs: seq<int>)
    requires |keys| == |xs|
    ensures |cs| == |ks|
    ensures forall j :: 0 <= j < |ks| ==> cs[j] == SumInt(Select(keys, ks[j], xs))
  {
    seq(|ks|, j requires 0 <= j < |ks| => SumInt(Select(keys, ks[j], xs)))
  }

  lemma {:induction false} GroupCountsAsReal<K>(ks: seq<K>, keys: seq<K>, xs: seq<int>)
    requires |keys| == |xs|
    ensures SumInt(GroupCounts(ks, keys, xs)) as real == SumOverGroups(ks, keys, AsReals(xs))
  {
    if |ks| > 0 {
      var n := |ks| - 1;
      GroupCountsAsReal(ks[..n], keys, xs);
      assert GroupCounts(ks, keys, xs)[..n] == GroupCounts(ks[..n], keys, xs);
      SumIntAsReal(Select(keys, ks[n], xs));
      SelectAsReals(keys, ks[n], xs);
    }
  }

  /**
   * When the keys of `ks` are distinct and every page's key is among them,
   * the per-key counts add up to the count over all pages.
   */
  lemma {:induction false} CountsAddUp<K>(ks: seq<K>, keys: seq<K>, xs: seq<int>)
    requires |keys| == |xs|
    requires Distinct(ks)
    requires forall i :: 0 <= i < |keys| ==> keys[i] in ks
    ensures SumInt(GroupCounts(ks, keys, xs)) == SumInt(xs)
  {
    GroupCountsAsReal(ks, keys, xs);
    PartitionSum(ks, keys, AsReals(xs));
    SumIntAsReal(xs);
  }

  /** A sum of non-negative counts is non-negative. */
  lemma {:induction false} SumIntNonNegative(xs: seq<int>)
    requires forall i :: 0 <= i < |xs| ==> xs[i] >= 0
    ensures SumInt(xs) >= 0
  {
    if |xs| > 0 {
      var n := |xs| - 1;
      assert forall i :: 0 <= i < n ==> xs[..n][i] >= 0 by {
        forall i | 0 <= i < n ensures xs[..n][i] >= 0 {
          assert xs[..n][i] == xs[i];
        }
      }
      SumIntNonNegative(xs[..n]);
    }
  }

  /** Every page's month is one of the twelve report months. */
  lemma {:induction false} MonthsCoverPages(months: seq<int>)
    requires forall i :: 0 <= i < |months| ==> InMonths(months[i])
    ensures Distinct(Months)
    ensures forall i :: 0 <= i < |months| ==> months[i] in Months
  {
    forall i | 0 <= i < |months| ensures months[i] in Months {
      assert Months[months[i] - 1] == months[i];
    }
  }

  // ---------------------------------------------------------------------
  // Overtime
  // ---------------------------------------------------------------------

  /** Hours above `limit` on one day, counting only days strictly above it. */
  function Excess(h: real, limit: real): real
  {
    if h > limit then h - limit else 0.0
  }

  /** The same, counting days at or above the limit. */
  function ExcessAtLeast(h: real, limit: real): real
  {
    if h >= limit then h - limit else 0.0
  }

  /** Overtime over one page's days. */
  function Overtime(hs: seq<real>, limit: real): real
  {
    if |hs| == 0 then 0.0 else Overtime(hs[..|hs| - 1], limit) + Excess(hs[|hs| - 1], limit)
  }

  function OvertimeAtLeast(hs: seq<real>, limit: real): real
  {
    if |hs| == 0 then 0.0 else OvertimeAtLeast(hs[..|hs| - 1], limit) + ExcessAtLeast(hs[|hs| - 1], limit)
  }

  /** A day exactly at the limit adds nothing, so both comparisons give the same overtime. */
  lemma {:induction false} AtLeastSameOvertime(hs: seq<real>, limit: real)
    ensures OvertimeAtLeast(hs, limit) == Overtime(hs, limit)
  {
    if |hs| > 0 {
      AtLeastSameOvertime(hs[..|hs| - 1], limit);
    }
  }

  predicate NonNegative(hs: seq<real>)
  {
    forall d :: 0 <= d < |hs| ==> hs[d] >= 0.0
  }

  /** With a non-negative limit and non-negative hours, overtime lies between 0 and the hours worked. */
  lemma {:induction false} OvertimeBounds(hs: seq<real>, limit: real)
    requires limit >= 0.0 && NonNegative(hs)
    ensures 0.0 <= Overtime(hs, limit) <= SumReal(hs)
  {
    if |hs| > 0 {
      var n := |hs| - 1;
      assert NonNegative(hs[..n]) by {
        forall d | 0 <= d < n ensures hs[..n][d] >= 0.0 {
          assert hs[..n][d] == hs[d];
        }
      }
      OvertimeBounds(hs[..n], limit);
    }
  }

  /** Hours worked on each page. */
  function PageTotals(hours: seq<seq<real>>): (ts: seq<real>)
    ensures |ts| == |hours|
  {
    seq(|hours|, i requires 0 <= i < |hours| => SumReal(hours[i]))
  }

  /** Overtime on each page, counting days strictly above the limit. */
  function PageOvertimes(hours: seq<seq<real>>, limit: real): (os: seq<real>)
    ensures |os| == |hours|
  {
    seq(|hours|, i requires 0 <= i < |hours| => Overtime(hours[i], limit))
  }

  /** Overtime on each page, counting days at or above the limit. */
  function PageOvertimesAtLeast(hours: seq<seq<real>>, limit: real): (os: seq<real>)
    ensures |os| == |hours|
    ensures os == PageOvertimes(hours, limit)
  {
    var os := seq(|hours|, i requires 0 <= i < |hours| => OvertimeAtLeast(hours[i], limit));
    assert os == PageOvertimes(hours, limit) by {
      forall i | 0 <= i < |hours| ensures os[i] == PageOvertimes(hours, limit)[i] {
        AtLeastSameOvertime(hours[i], limit);
      }
    }
    os
  }

  /** The hours of every page are non-negative. */
  predicate AllNonNegative(hours: seq<seq<real>>)
  {
    forall i :: 0 <= i < |hours| ==> NonNegative(hours[i])
  }

  lemma {:induction false} GroupOvertimeBounds<K>(keys: seq<K>, k: K, hours: seq<seq<real>>, limit: real)
    requires |keys| == |hours|
    requires limit >= 0.0 && AllNonNegative(hours)
    ensures 0.0 <= SumReal(Select(keys, k, PageOvertimes(hours, limit)))
    ensures SumReal(Select(keys, k, PageOvertimes(hours, limit))) <= SumReal(Select(keys, k, PageTotals(hours)))
    decreases |hours|
  {
    if |hours| > 0 {
      var n := |hours| - 1;
      assert AllNonNegative(hours[..n]);
      GroupOvertimeBounds(keys[..n], k, hours[..n], limit);
      assert PageOvertimes(hours, limit)[..n] == PageOvertimes(hours[..n], limit);
      assert PageTotals(hours)[..n] == PageTotals(hours[..n]);
      OvertimeBounds(hours[n], limit);
      if keys[n] == k {
        SumRealSnoc(Select(keys[..n], k, PageOvertimes(hours[..n], limit)), Overtime(hours[n], limit));
        SumRealSnoc(Select(keys[..n], k, PageTotals(hours[..n])), SumReal(hours[n]));
      }
    }
  }

  /** One group of an overtime report. */
  datatype GroupRow<K> = GroupRow(key: K, overtime: real, total: real)

  /** Overtime and hours worked of the group of pages whose key is `k`. */
  function Group<K(==)>(keys: seq<K>, k: K, hours: seq<seq<real>>, limit: real): (row: GroupRow<K>)
    requires |keys| == |hours|
    ensures row.key == k
    ensures limit >= 0.0 && AllNonNegative(hours) ==> 0.0 <= row.overtime <= row.total
  {
    var row := GroupRow(k, SumReal(Select(keys, k, PageOvertimes(hours, limit))), SumReal(Select(keys, k, PageTotals(hours))));
    if limit >= 0.0 && AllNonNegative(hours) then
      GroupOvertimeBounds(keys, k, hours, limit);
      row
    else
      row
  }

  /** With no pages, a group has neither overtime nor hours worked. */
  lemma {:induction false} GroupNoPages<K>(k: K, limit: real)
    ensures Group([], k, [], limit) == GroupRow(k, 0.0, 0.0)
  {
    assert PageOvertimes([], limit) == [] && PageTotals([]) == [];
  }

  /**
   * One more page adds its overtime and its hours worked to the group of its
   * own key, and leaves every other group as it was.
   */
  lemma {:induction false} GroupAddPage<K>(keys: seq<K>, k: K, hours: seq<seq<real>>, kl: K, h: seq<real>, limit: real)
    requires |keys| == |hours|
    ensures var g := Group(keys, k, hours, limit);
      Group(keys + [kl], k, hours + [h], limit) == GroupRow(
        k,
        g.overtime + (if kl == k then Overtime(h, limit) else 0.0),
        g.total + (if kl == k then SumReal(h) else 0.0))
  {
    var g := Group(keys, k, hours, limit);
    assert g.overtime == SumReal(Select(keys, k, PageOvertimes(hours, limit)));
    assert g.total == SumReal(Select(keys, k, PageTotals(hours)));
    OvertimesAddPage(keys, k, hours, kl, h, limit);
    TotalsAddPage(keys, k, hours, kl, h);
  }

  lemma {:induction false} OvertimesAddPage<K>(keys: seq<K>, k: K, hours: seq<seq<real>>, kl: K, h: seq<real>, limit: real)
    requires |keys| == |hours|
    ensures SumReal(Select(keys + [kl], k, PageOvertimes(hours + [h], limit)))
      == SumReal(Select(keys, k, PageOvertimes(hours, limit))) + (if kl == k then Overtime(h, limit) else 0.0)
  {
    var os := PageOvertimes(hours, limit);
    assert PageOvertimes(hours + [h], limit) == os + [Overtime(h, limit)];
    SelectSnocSum(keys, k, os, kl, Overtime(h, limit));
  }

  lemma {:induction false} TotalsAddPage<K>(keys: seq<K>, k: K, hours: seq<seq<real>>, kl: K, h: seq<real>)
    requires |keys| == |hours|
    ensures SumReal(Select(keys + [kl], k, PageTotals(hours + [h])))
      == SumReal(Select(keys, k, PageTotals(hours))) + (if kl == k then SumReal(h) else 0.0)
  {
    var ts := PageTotals(hours);
    assert PageTotals(hours + [h]) == ts + [SumReal(h)];
    SelectSnocSum(keys, k, ts, kl, SumReal(h));
  }

  /** Selecting after one more page: its value joins the sum of its own key's group only. */
  lemma {:induction false} SelectSnocSum<K>(keys: seq<K>, k: K, xs: seq<real>, kl: K, x: real)
    requires |keys| == |xs|
    ensures SumReal(Select(keys + [kl], k, xs + [x])) == SumReal(Select(keys, k, xs)) + (if kl == k then x else 0.0)
  {
    var n := |xs|;
    assert (keys + [kl])[..n] == keys && (xs + [x])[..n] == xs;
    if kl == k {
      assert Select(keys + [kl], k, xs + [x]) == Select(keys, k, xs) + [x];
      SumRealSnoc(Select(keys, k, xs), x);
    } else {
      assert Select(keys + [kl], k, xs + [x]) == Select(keys, k, xs);
    }
  }

  /** A page of three 9-hour days is 3 hours over a limit of 8, out of 27 worked. */
  lemma {:induction false} NineHourPage()
    ensures Overtime([9.0, 9.0, 9.0], 8.0) == 3.0 && SumReal([9.0, 9.0, 9.0]) == 27.0
  {
    assert Overtime([9.0], 8.0) == 1.0 && SumReal([9.0]) == 9.0 by {
      assert [9.0][..0] == [];
    }
    assert Overtime([9.0, 9.0], 8.0) == 2.0 && SumReal([9.0, 9.0]) == 18.0 by {
      assert [9.0, 9.0][..1] == [9.0];
    }
    assert [9.0, 9.0, 9.0][..2] == [9.0, 9.0];
  }

  /**
   * A worked example: two January pages of three 9-hour days and one
   * February page, against a limit of 8 hours. January's row has 6 hours of
   * overtime out of 54 worked; the February page is not in it.
   */
  lemma {:induction false} OvertimeExample(jan: seq<real>, feb: seq<real>)
    requires jan == [9.0, 9.0, 9.0] && feb == [12.0]
    ensures Group([1, 1, 2], 1, [jan, jan, feb], 8.0) == GroupRow(1, 6.0, 54.0)
  {
    TwoJanuaryPages(jan);
    GroupAddPage([1, 1], 1, [jan, jan], 2, feb, 8.0);
    assert [1, 1] + [2] == [1, 1, 2] && [jan, jan] + [feb] == [jan, jan, feb];
  }

  /** The first two pages of the example: two nine-hour January pages give 6 hours of overtime out of 54. */
  lemma {:induction false} TwoJanuaryPages(jan: seq<real>)
    requires jan == [9.0, 9.0, 9.0]
    ensures Group([1, 1], 1, [jan, jan], 8.0) == GroupRow(1, 6.0, 54.0)
  {
    NineHourPage();
    GroupNoPages(1, 8.0);
    GroupAddPage([], 1, [], 1, jan, 8.0);
    assert [] + [1] == [1] && [] + [jan] == [jan];
    GroupAddPage([1], 1, [jan], 1, jan, 8.0);
    assert [1] + [1] == [1, 1] && [jan] + [jan] == [jan, jan];
  }

  /** Overtime and hours worked per month, one row for each of the twelve months. */
  function OvertimeByMonth(months: seq<int>, hours: seq<seq<real>>, limit: real): (rows: seq<GroupRow<int>>)
    requires |months| == |hours|
    ensures |rows| == |Months|
    ensures forall m :: 0 <= m < |rows| ==> rows[m].key == m + 1
    ensures forall m :: 0 <= m < |rows| ==> rows[m] == Group(months, Months[m], hours, limit)
    ensures limit >= 0.0 && AllNonNegative(hours) ==> forall m :: 0 <= m < |rows| ==> 0.0 <= rows[m].overtime <= rows[m].total
  {
    seq(|Months|, m requires 0 <= m < |Months| => Group(months, Months[m], hours, limit))
  }

  /** The distinct entries of `xs` in order of first appearance (pandas `unique`). */
  function Unique<K(==)>(xs: seq<K>): (u: seq<K>)
    ensures forall i :: 0 <= i < |xs| ==> xs[i] in u
    ensures forall j :: 0 <= j < |u| ==> u[j] in xs
    ensures Distinct(u)
  {
    if |xs| == 0 then []
    else
      var n := |xs| - 1;
      var front := Unique(xs[..n]);
      assert forall i :: 0 <= i < n ==> xs[i] == xs[..n][i];
      if xs[n] in front then front else front + [xs[n]]
  }

  /** Where `x` first occurs in `xs`. */
  function IndexOf<K(==)>(xs: seq<K>, x: K): (i: nat)
    requires x in xs
    ensures i < |xs| && xs[i] == x
    ensures forall j :: 0 <= j < i ==> xs[j] != x
  {
    if xs[0] == x then 0 else 1 + IndexOf(xs[1..], x)
  }

  /** A value met in the first `n` entries first occurs at the same place in the whole sequence. */
  lemma {:induction false} IndexOfInPrefix<K>(xs: seq<K>, n: nat, x: K)
    requires n <= |xs| && x in xs[..n]
    ensures IndexOf(xs, x) == IndexOf(xs[..n], x) < n
  {
    var i := IndexOf(xs[..n], x);
    assert xs[i] == x;
    assert forall j :: 0 <= j < i ==> xs[j] == xs[..n][j];
  }

  /** The distinct entries come in the order in which each first appears. */
  lemma {:induction false} UniqueFirstSeenOrder<K>(xs: seq<K>)
    ensures forall j1, j2 :: 0 <= j1 < j2 < |Unique(xs)| ==> IndexOf(xs, Unique(xs)[j1]) < IndexOf(xs, Unique(xs)[j2])
  {
    if |xs| > 0 {
      var n := |xs| - 1;
      var front := Unique(xs[..n]);
      UniqueFirstSeenOrder(xs[..n]);
      forall j | 0 <= j < |front| ensures IndexOf(xs, front[j]) == IndexOf(xs[..n], front[j]) < n {
        IndexOfInPrefix(xs, n, front[j]);
      }
      if xs[n] !in front {
        assert xs[n] !in xs[..n];
        assert IndexOf(xs, xs[n]) == n;
        assert Unique(xs) == front + [xs[n]];
      }
    }
  }

  /** Overtime and hours worked per position, one row per distinct position. */
  function OvertimeByPosition(positions: seq<string>, hours: seq<seq<real>>, limit: real): (rows: seq<GroupRow<string>>)
    requires |positions| == |hours|
    ensures |rows| == |Unique(positions)|
    ensures forall j :: 0 <= j < |rows| ==> rows[j].key == Unique(positions)[j]
    ensures forall j :: 0 <= j < |rows| ==> rows[j] == Group(positions, Unique(positions)[j], hours, limit)
    ensures limit >= 0.0 && AllNonNegative(hours) ==> forall j :: 0 <= j < |rows| ==> 0.0 <= rows[j].overtime <= rows[j].total
  {
    var ps := Unique(positions);
    seq(|ps|, j requires 0 <= j < |ps| => Group(positions, ps[j], hours, limit))
  }

  /** The month and the position of every page, paired. */
  function MonthAndPosition(months: seq<int>, positions: seq<string>): (keys: seq<(int, string)>)
    requires |months| == |positions|
    ensures |keys| == |months|
    ensures forall i :: 0 <= i < |keys| ==> keys[i] == (months[i], positions[i])
  {
    seq(|months|, i requires 0 <= i < |months| => (months[i], positions[i]))
  }

  /** One position's row of the per-position, per-month report. */
  datatype PositionMonths = PositionMonths(position: string, overtimes: seq<real>, totals: seq<real>)

  /**
   * Overtime (days at or above the limit) and hours worked for every
   * distinct position and every month. A day exactly at the limit adds no
   * overtime, so the figures equal those of the strict comparison.
   */
  function OvertimeByPositionAndMonth(months: seq<int>, positions: seq<string>, hours: seq<seq<real>>, limit: real): (rows: seq<PositionMonths>)
    requires |months| == |positions| == |hours|
    ensures |rows| == |Unique(positions)|
    ensures forall j :: 0 <= j < |rows| ==> rows[j].position == Unique(positions)[j]
    ensures forall j :: 0 <= j < |rows| ==> |rows[j].overtimes| == |Months| && |rows[j].totals| == |Months|
    ensures forall j, m :: 0 <= j < |rows| && 0 <= m < |Months| ==>
      var g := Group(MonthAndPosition(months, positions), (Months[m], rows[j].position), hours, limit);
      rows[j].overtimes[m] == g.overtime && rows[j].totals[m] == g.total
  {
    var keys := MonthAndPosition(months, positions);
    var ps := Unique(positions);
    var ot := PageOvertimesAtLeast(hours, limit);
    var tt := PageTotals(hours);
    seq(|ps|, j requires 0 <= j < |ps| =>
      PositionMonths(
        ps[j],
        seq(|Months|, m requires 0 <= m < |Months| => SumReal(Select(keys, (Months[m], ps[j]), ot))),
        seq(|Months|, m requires 0 <= m < |Months| => SumReal(Select(keys, (Months[m], ps[j]), tt)))))
  }

  /** Hours worked of each row of a report. */
  function RowTotals<K>(rows: seq<GroupRow<K>>): (ts: seq<real>)
    ensures |ts| == |rows|
    ensures forall j :: 0 <= j < |rows| ==> ts[j] == rows[j].total
  {
    seq(|rows|, j requires 0 <= j < |rows| => rows[j].total)
  }

  /** Overtime of each row of a report. */
  function RowOvertimes<K>(rows: seq<GroupRow<K>>): (os: seq<real>)
    ensures |os| == |rows|
    ensures forall j :: 0 <= j < |rows| ==> os[j] == rows[j].overtime
  {
    seq(|rows|, j requires 0 <= j < |rows| => rows[j].overtime)
  }

  /** The rows of a report, one group per key of `ks`, sum to the group sums over `ks`. */
  lemma {:induction false} RowSumsAreGroupSums<K>(ks: seq<K>, keys: seq<K>, hours: seq<seq<real>>, limit: real, rows: seq<GroupRow<K>>)
    requires |keys| == |hours| && |rows| == |ks|
    requires forall j :: 0 <= j < |ks| ==> rows[j] == Group(keys, ks[j], hours, limit)
    ensures SumReal(RowTotals(rows)) == SumOverGroups(ks, keys, PageTotals(hours))
    ensures SumReal(RowOvertimes(rows)) == SumOverGroups(ks, keys, PageOvertimes(hours, limit))
  {
    if |ks| > 0 {
      var n := |ks| - 1;
      assert forall j :: 0 <= j < n ==> rows[..n][j] == Group(keys, ks[..n][j], hours, limit) by {
        forall j | 0 <= j < n ensures rows[..n][j] == Group(keys, ks[..n][j], hours, limit) {
          assert rows[..n][j] == rows[j] && ks[..n][j] == ks[j];
        }
      }
      RowSumsAreGroupSums(ks[..n], keys, hours, limit, rows[..n]);
      assert RowTotals(rows)[..n] == RowTotals(rows[..n]);
      assert RowOvertimes(rows)[..n] == RowOvertimes(rows[..n]);
      assert rows[n] == Group(keys, ks[n], hours, limit);
    }
  }

  /** Summed over all rows, the per-position overtime and hours worked equal those of all pages. */
  lemma {:induction false} PositionRowsAddUp(positions: seq<string>, hours: seq<seq<real>>, limit: real)
    requires |positions| == |hours|
    ensures SumReal(RowTotals(OvertimeByPosition(positions, hours, limit))) == SumReal(PageTotals(hours))
    ensures SumReal(RowOvertimes(OvertimeByPosition(positions, hours, limit))) == SumReal(PageOvertimes(hours, limit))
  {
    var ps := Unique(positions);
    var rows := OvertimeByPosition(positions, hours, limit);
    RowSumsAreGroupSums(ps, positions, hours, limit, rows);
    PartitionSum(ps, positions, PageTotals(hours));
    PartitionSum(ps, positions, PageOvertimes(hours, limit));
  }

  /** When every page's month is in 1..12, the twelve monthly rows add up to the overtime and hours worked of all pages. */
  lemma {:induction false} MonthlyRowsAddUp(months: seq<int>, hours: seq<seq<real>>, limit: real)
    requires |months| == |hours|
    requires forall i :: 0 <= i < |months| ==> InMonths(months[i])
    ensures SumReal(RowTotals(OvertimeByMonth(months, hours, limit))) == SumReal(PageTotals(hours))
    ensures SumReal(RowOvertimes(OvertimeByMonth(months, hours, limit))) == SumReal(PageOvertimes(hours, limit))
  {
    MonthlyFiguresAddUp(months, hours, limit);
    RowSumsAreGroupSums(Months, months, hours, limit, OvertimeByMonth(months, hours, limit));
  }

  /** When every page's month is in 1..12, the monthly overtimes and hours worked add up to those of all pages. */
  lemma {:induction false} MonthlyFiguresAddUp(months: seq<int>, hours: seq<seq<real>>, limit: real)
    requires |months| == |hours|
    requires forall i :: 0 <= i < |months| ==> InMonths(months[i])
    ensures SumOverGroups(Months, months, PageTotals(hours)) == SumReal(PageTotals(hours))
    ensures SumOverGroups(Months, months, PageOvertimes(hours, limit)) == SumReal(PageOvertimes(hours, limit))
  {
    MonthsCoverPages(months);
    PartitionSum(Months, months, PageTotals(hours));
    PartitionSum(Months, months, PageOvertimes(hours, limit));
  }

  // ---------------------------------------------------------------------
  // Violations and days
  // ---------------------------------------------------------------------

  /** Number of numeric rest values strictly below `limit`. */
  function Below(xs: seq<RestValue>, limit: real): (n: nat)
    ensures n <= |xs|
  {
    if |xs| == 0 then 0
    else Below(xs[..|xs| - 1], limit) + (if xs[|xs| - 1].Num? && xs[|xs| - 1].value < limit then 1 else 0)
  }

  /** Indices of the numeric rest values strictly below `limit`. */
  ghost function BelowSlots(xs: seq<RestValue>, limit: real): set<int>
  {
    set j | 0 <= j < |xs| && xs[j].Num? && xs[j].value < limit
  }

  /** `Below` counts exactly the values under the limit. */
  lemma {:induction false} BelowCountsSlots(xs: seq<RestValue>, limit: real)
    ensures Below(xs, limit) == |BelowSlots(xs, limit)|
  {
    if |xs| > 0 {
      var n := |xs| - 1;
      BelowCountsSlots(xs[..n], limit);
      if xs[n].Num? && xs[n].value < limit {
        assert BelowSlots(xs, limit) == BelowSlots(xs[..n], limit) + {n};
      } else {
        assert BelowSlots(xs, limit) == BelowSlots(xs[..n], limit);
      }
    }
  }

  /** A sentinel replaced by a value at or above the limit never counts as a violation. */
  lemma {:induction false} FilledSentinelsNeverViolate(xs: seq<RestValue>, fill: real, limit: real)
    requires fill >= limit
    ensures Below(FillList(xs, fill), limit) == Below(xs, limit)
  {
    var ys := FillList(xs, fill);
    BelowCountsSlots(xs, limit);
    BelowCountsSlots(ys, limit);
    assert BelowSlots(ys, limit) == BelowSlots(xs, limit);
  }

  /** Violations of each page's list. */
  function PageViolations(rest: seq<seq<RestValue>>, limit: real): (vs: seq<int>)
    ensures |vs| == |rest|
    ensures forall i :: 0 <= i < |rest| ==> 0 <= vs[i] <= |rest[i]|
    ensures forall i :: 0 <= i < |rest| ==> vs[i] == |BelowSlots(rest[i], limit)|
  {
    var vs := seq(|rest|, i requires 0 <= i < |rest| => Below(rest[i], limit));
    assert forall i :: 0 <= i < |rest| ==> vs[i] == |BelowSlots(rest[i], limit)| by {
      forall i | 0 <= i < |rest| ensures vs[i] == |BelowSlots(rest[i], limit)| {
        BelowCountsSlots(rest[i], limit);
      }
    }
    vs
  }

  /**
   * Violations per month: the number of rest values strictly below `limit`
   * on the pages of that month. Comparing a sentinel with a number is an
   * error in the source, so the pages that are counted must hold numbers only.
   */
  function ViolationsByMonth(months: seq<int>, rest: seq<seq<RestValue>>, limit: real): (vs: seq<int>)
    requires |months| == |rest|
    requires forall i :: 0 <= i < |rest| && InMonths(months[i]) ==> AllNumeric(rest[i])
    ensures |vs| == |Months|
    ensures forall m :: 0 <= m < |vs| ==> vs[m] == SumInt(Select(months, Months[m], PageViolations(rest, limit)))
    ensures forall m :: 0 <= m < |vs| ==> 0 <= vs[m]
  {
    var pv := PageViolations(rest, limit);
    assert forall m :: 0 <= m < |Months| ==> SumInt(Select(months, Months[m], pv)) >= 0 by {
      forall m | 0 <= m < |Months| ensures SumInt(Select(months, Months[m], pv)) >= 0 {
        SelectPicksMatching(months, Months[m], pv);
        SumIntNonNegative(Select(months, Months[m], pv));
      }
    }
    GroupCounts(Months, months, pv)
  }

  /**
   * When every page's month is in 1..12, the monthly violation counts add up
   * to the number of values below the limit on all pages.
   */
  lemma {:induction false} ViolationsAddUp(months: seq<int>, rest: seq<seq<RestValue>>, limit: real)
    requires |months| == |rest|
    requires forall i :: 0 <= i < |months| ==> InMonths(months[i])
    requires forall i :: 0 <= i < |rest| ==> AllNumeric(rest[i])
    ensures SumInt(ViolationsByMonth(months, rest, limit)) == SumInt(PageViolations(rest, limit))
  {
    MonthsCoverPages(months);
    CountsAddUp(Months, months, PageViolations(rest, limit));
    assert ViolationsByMonth(months, rest, limit) == GroupCounts(Months, months, PageViolations(rest, limit));
  }

  /** Days covered by each page's header. */
  function PageDays(headers: seq<Header>): (ds: seq<int>)
    ensures |ds| == |headers|
  {
    seq(|headers|, i requires 0 <= i < |headers| => DaysCovered(headers[i]))
  }

  /** The violation report: violations in any 24 hours, in any 7 days, and days covered, per month. */
  datatype ViolationReport = ViolationReport(in24h: seq<int>, in7d: seq<int>, days: seq<int>)

  /**
   * Cleans the rest-hour lists, then counts violations against 10 hours
   * (24-hour window) and 77 hours (7-day window) and sums the days covered
   * per month. Because a sentinel becomes 24 or 168, which are above those
   * limits, the counts are those of the numeric values read from the pages.
   */
  function ReportViolations(h: AnyHours, months: seq<int>, headers: seq<Header>): (r: ViolationReport)
    requires |h.in24h| == |months| && |h.in7d| == |months| && |headers| == |months|
    ensures |r.in24h| == |Months| && |r.in7d| == |Months| && |r.days| == |Months|
    ensures forall m :: 0 <= m < |Months| ==> r.in24h[m] == SumInt(Select(months, Months[m], PageViolations(h.in24h, Limit24h)))
    ensures forall m :: 0 <= m < |Months| ==> r.in7d[m] == SumInt(Select(months, Months[m], PageViolations(h.in7d, Limit7d)))
    ensures forall m :: 0 <= m < |Months| ==> r.days[m] == SumInt(Select(months, Months[m], PageDays(headers)))
  {
    var c := Clean(h);
    assert PageViolations(c.in24h, Limit24h) == PageViolations(h.in24h, Limit24h) by {
      forall i | 0 <= i < |h.in24h| ensures Below(c.in24h[i], Limit24h) == Below(h.in24h[i], Limit24h) {
        assert c.in24h[i] == FillList(h.in24h[i], Full24h);
        FilledSentinelsNeverViolate(h.in24h[i], Full24h, Limit24h);
      }
    }
    assert PageViolations(c.in7d, Limit7d) == PageViolations(h.in7d, Limit7d) by {
      forall i | 0 <= i < |h.in7d| ensures Below(c.in7d[i], Limit7d) == Below(h.in7d[i], Limit7d) {
        assert c.in7d[i] == FillList(h.in7d[i], Full7d);
        FilledSentinelsNeverViolate(h.in7d[i], Full7d, Limit7d);
      }
    }
    ViolationReport(
      ViolationsByMonth(months, c.in24h, Limit24h),
      ViolationsByMonth(months, c.in7d, Limit7d),
      GroupCounts(Months, months, PageDays(headers)))
  }

  /**
   * When every page's month is in 1..12, each column of the violation report
   * adds up to its figure over all pages: values below 10 in the 24-hour
   * lists, values below 77 in the 7-day lists, and days covered, whatever the
   * pages' day spans.
   */
  lemma {:induction false} ReportAddsUp(h: AnyHours, months: seq<int>, headers: seq<Header>)
    requires |h.in24h| == |months| && |h.in7d| == |months| && |headers| == |months|
    requires forall i :: 0 <= i < |months| ==> InMonths(months[i])
    ensures SumInt(ReportViolations(h, months, headers).in24h) == SumInt(PageViolations(h.in24h, Limit24h))
    ensures SumInt(ReportViolations(h, months, headers).in7d) == SumInt(PageViolations(h.in7d, Limit7d))
    ensures SumInt(ReportViolations(h, months, headers).days) == SumInt(PageDays(headers))
  {
    var r := ReportViolations(h, months, headers);
    MonthsCoverPages(months);
    assert r.in24h == GroupCounts(Months, months, PageViolations(h.in24h, Limit24h));
    assert r.in7d == GroupCounts(Months, months, PageViolations(h.in7d, Limit7d));
    assert r.days == GroupCounts(Months, months, PageDays(headers));
    CountsAddUp(Months, months, PageViolations(h.in24h, Limit24h));
    CountsAddUp(Months, months, PageViolations(h.in7d, Limit7d));
    CountsAddUp(Months, months, PageDays(headers));
  }

  /** The worked example of a rest-hour list: of 5, 12 and 24 hours, only 5 is below 10. */
  lemma {:induction false} ViolationExample()
    ensures Below([Num(5.0), Num(12.0), Num(24.0)], Limit24h) == 1
  {
    var xs := [Num(5.0), Num(12.0), Num(24.0)];
    assert xs[..2] == [Num(5.0), Num(12.0)];
    assert xs[..2][..1] == [Num(5.0)];
  }

  /** The number of chart rows decoded for each page. */
  function ChartRows(gantts: seq<Grid>): (rs: seq<int>)
    ensures |rs| == |gantts|
  {
    seq(|gantts|, i requires 0 <= i < |gantts| => |gantts[i]|)
  }

  /**
   * For a coherent extraction (every successful read is one) whose pages all
   * end on or after the day they start, the days the violation report counts
   * for a month are the chart rows decoded for that month's pages.
   */
  lemma {:induction false} DaysMatchChartRows(x: Extraction, months: seq<int>, m: nat)
    requires Coherent(x) && |months| == |x.headers|
    requires forall i :: 0 <= i < |x.headers| ==> x.headers[i].startDay <= x.headers[i].endDay + 1
    requires m < |Months|
    ensures ReportViolations(x.anyHours, months, x.headers).days[m] == SumInt(Select(months, Months[m], ChartRows(x.gantts)))
  {
    PageDaysAreChartRows(x);
    assert ReportViolations(x.anyHours, months, x.headers).days[m] == SumInt(Select(months, Months[m], PageDays(x.headers)));
  }

  /** Under the same conditions, each page's days covered is its number of chart rows. */
  lemma {:induction false} PageDaysAreChartRows(x: Extraction)
    requires Coherent(x)
    requires forall i :: 0 <= i < |x.headers| ==> x.headers[i].startDay <= x.headers[i].endDay + 1
    ensures PageDays(x.headers) == ChartRows(x.gantts)
  {
    forall i | 0 <= i < |x.headers| ensures PageDays(x.headers)[i] == ChartRows(x.gantts)[i] {
      assert |x.gantts[i]| == RowCount(DaysCovered(x.headers[i]));
    }
  }
}
