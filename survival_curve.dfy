/**
 * The two-group Kaplan-Meier comparison (`get_survival_curve` in python-server/model.py).
 *
 * A cohort is the sequence of its subjects' times with a parallel sequence of predicted
 * labels. The horizon is the sorted distinct cohort times without the largest one (the
 * censoring sentinel); both groups' tables are built over it; the log-rank test is a
 * parameter whose `None` result stands for NaN and is replaced by the sentinel 100.0.
 */
module SurvivalCurve {
  import opened Wrappers
  import opened EventTable

  /** The recorded time of a subject whose death was not observed. */
  const Censored: int := 1000000

  /** The p-value reported when the log-rank test yields NaN. */
  const NotComputable: real := 100.0

  datatype Record = Record(day: int, gp0: real, gp1: real)

  datatype Response = Response(data: seq<Record>, pVal: real)

  /** A two-sample log-rank test: times and observed-event indicators of two groups. */
  type LogRank = (seq<int>, seq<int>, seq<int>, seq<int>) -> Option<real>

  // ---------------------------------------------------------------------------
  // The horizon

  lemma ConsAscending(x: int, s: seq<int>)
    requires StrictlyAscending(s)
    requires forall y :: y in s ==> x < y
    ensures StrictlyAscending([x] + s)
  {
    forall i, j | 0 <= i < j < |[x] + s|
      ensures ([x] + s)[i] < ([x] + s)[j]
    {
      if i == 0 {
        assert ([x] + s)[j] == s[j - 1];
        assert s[j - 1] in s;
      }
    }
  }

  /** Inserts `x` into an ascending sequence without repetition. */
  function Insert(x: int, s: seq<int>): (r: seq<int>)
    requires StrictlyAscending(s)
    ensures StrictlyAscending(r)
    ensures forall y :: y in r <==> y == x || y in s
    decreases |s|
  {
    if s == [] then [x]
    else if x < s[0] then
      assert forall y :: y in s ==> x < y by {
        forall y | y in s ensures x < y {
          var j :| 0 <= j < |s| && s[j] == y;
          assert s[0] <= s[j];
        }
      }
      ConsAscending(x, s);
      [x] + s
    else if x == s[0] then s
    else
      assert s == [s[0]] + s[1..];
      var rest := Insert(x, s[1..]);
      assert forall y :: y in rest ==> s[0] < y by {
        forall y | y in rest ensures s[0] < y {
          if y != x {
            var j :| 0 <= j < |s[1..]| && s[1..][j] == y;
            assert s[0] < s[j + 1];
          }
        }
      }
      ConsAscending(s[0], rest);
      [s[0]] + rest
  }

  /** The sorted distinct values of `xs` (numpy `sort(unique(xs))`). */
  function SortedUnique(xs: seq<int>): (r: seq<int>)
    ensures StrictlyAscending(r)
    ensures forall y :: y in r <==> y in xs
  {
    if xs == [] then []
    else
      assert xs == [xs[0]] + xs[1..];
      Insert(xs[0], SortedUnique(xs[1..]))
  }

  /** Some cohort time exceeds `y`, itself a cohort time. */
  ghost predicate BelowLargest(times: seq<int>, y: int) {
    y in times && exists z :: z in times && y < z
  }

  /**
   * Dropping the last of the sorted distinct values leaves exactly the values that some
   * other value exceeds.
   */
  lemma DropLargest(u: seq<int>, times: seq<int>, y: int)
    requires StrictlyAscending(u) && u != []
    requires forall x :: x in u <==> x in times
    ensures y in u[..|u| - 1] <==> BelowLargest(times, y)
  {
    var n := |u|;
    if y in u[..n - 1] {
      var j :| 0 <= j < n - 1 && u[..n - 1][j] == y;
      assert u[j] < u[n - 1];
      assert u[n - 1] in u;
    }
    if y in times && exists z :: z in times && y < z {
      var z :| z in times && y < z;
      assert y in u && z in u;
      var j :| 0 <= j < n && u[j] == y;
      var k :| 0 <= k < n && u[k] == z;
      assert j < k;
      assert u[..n - 1][j] == y;
    }
  }

  /**
   * The shared horizon: the sorted distinct cohort times with the largest dropped. It holds
   * exactly the cohort times that some other cohort time exceeds.
   */
  function Horizon(times: seq<int>): (h: seq<int>)
    ensures StrictlyAscending(h)
    ensures forall y :: y in h <==> BelowLargest(times, y)
    ensures times == [] ==> h == []
    ensures times != [] ==> |h| == |SortedUnique(times)| - 1
  {
    var u := SortedUnique(times);
    if u == [] then []
    else
      assert forall y :: y in u[..|u| - 1] <==> BelowLargest(times, y) by {
        forall y
          ensures y in u[..|u| - 1] <==> BelowLargest(times, y)
        {
          DropLargest(u, times, y);
        }
      }
      assert u[0] in times;
      u[..|u| - 1]
  }

  lemma HeadIsLeast(a: seq<int>, y: int)
    requires StrictlyAscending(a) && y in a
    ensures a[0] <= y
  {
    var i :| 0 <= i < |a| && a[i] == y;
  }

  lemma TailMembers(a: seq<int>, y: int)
    requires StrictlyAscending(a) && a != []
    ensures y in a[1..] <==> y in a && y != a[0]
  {
    if y in a && y != a[0] {
      var i :| 0 <= i < |a| && a[i] == y;
      assert a[1..][i - 1] == y;
    }
    if y in a[1..] {
      var i :| 0 <= i < |a[1..]| && a[1..][i] == y;
      assert a[0] < a[i + 1];
    }
  }

  /** Two ascending sequences without repetition that hold the same values are equal. */
  lemma {:induction false} AscendingDetermined(a: seq<int>, b: seq<int>)
    requires StrictlyAscending(a) && StrictlyAscending(b)
    requires forall y :: y in a <==> y in b
    ensures a == b
    decreases |a|
  {
    if a == [] {
      assert forall j :: 0 <= j < |b| ==> b[j] in b;
    } else {
      assert a[0] in a;
      assert b != [] by {
        assert a[0] in b;
      }
      assert b[0] in b;
      HeadIsLeast(a, b[0]);
      HeadIsLeast(b, a[0]);
      forall y
        ensures y in a[1..] <==> y in b[1..]
      {
        TailMembers(a, y);
        TailMembers(b, y);
      }
      AscendingDetermined(a[1..], b[1..]);
      assert a == [a[0]] + a[1..] && b == [b[0]] + b[1..];
    }
  }

  /**
   * The horizon is the only ascending sequence without repetition that holds exactly the
   * cohort times below the largest one.
   */
  lemma HorizonIsUnique(times: seq<int>, h: seq<int>)
    requires StrictlyAscending(h)
    requires forall y :: y in h <==> BelowLargest(times, y)
    ensures h == Horizon(times)
  {
    AscendingDetermined(h, Horizon(times));
  }

  /** Times 5, 5, 20 and the sentinel give horizon [5, 20]. */
  lemma HorizonDropsSentinelAndDuplicates()
    ensures Horizon([5, 5, 20, Censored]) == [5, 20]
  {
    var times := [5, 5, 20, Censored];
    forall y
      ensures y in [5, 20] <==> BelowLargest(times, y)
    {
      if y in [5, 20] {
        assert Censored in times && y < Censored;
      }
    }
    HorizonIsUnique(times, [5, 20]);
  }

  // ---------------------------------------------------------------------------
  // Splitting the cohort by label

  /** The times of the subjects labelled `k`, in cohort order (a boolean mask). */
  function Select(times: seq<int>, labels: seq<int>, k: int): (g: seq<int>)
    requires |times| == |labels|
    ensures |g| <= |times|
  {
    if times == [] then []
    else
      (if labels[0] == k then [times[0]] else []) + Select(times[1..], labels[1..], k)
  }

  /** A time is in group `k` exactly when some subject labelled `k` has it. */
  lemma {:induction false} SelectMembers(times: seq<int>, labels: seq<int>, k: int, x: int)
    requires |times| == |labels|
    ensures x in Select(times, labels, k) <==> exists i :: 0 <= i < |times| && labels[i] == k && times[i] == x
  {
    if times != [] {
      SelectMembers(times[1..], labels[1..], k, x);
      if exists i :: 0 <= i < |times| && labels[i] == k && times[i] == x {
        var i :| 0 <= i < |times| && labels[i] == k && times[i] == x;
        if i > 0 {
          assert labels[1..][i - 1] == k && times[1..][i - 1] == x;
        }
      }
      if exists i :: 0 <= i < |times[1..]| && labels[1..][i] == k && times[1..][i] == x {
        var i :| 0 <= i < |times[1..]| && labels[1..][i] == k && times[1..][i] == x;
        assert labels[i + 1] == k && times[i + 1] == x;
      }
    }
  }

  /** Selecting from a concatenation selects from each part in turn: cohort order is kept. */
  lemma {:induction false} SelectAppend(t1: seq<int>, l1: seq<int>, t2: seq<int>, l2: seq<int>, k: int)
    requires |t1| == |l1| && |t2| == |l2|
    ensures Select(t1 + t2, l1 + l2, k) == Select(t1, l1, k) + Select(t2, l2, k)
  {
    if t1 == [] {
      assert t1 + t2 == t2 && l1 + l2 == l2;
    } else {
      var t, l := t1 + t2, l1 + l2;
      assert t[0] == t1[0] && l[0] == l1[0];
      assert t[1..] == t1[1..] + t2 && l[1..] == l1[1..] + l2;
      SelectAppend(t1[1..], l1[1..], t2, l2, k);
      var head := if l1[0] == k then [t1[0]] else [];
      assert Select(t, l, k) == head + Select(t[1..], l[1..], k);
      assert Select(t1, l1, k) == head + Select(t1[1..], l1[1..], k);
      assert Select(t, l, k) == head + (Select(t1[1..], l1[1..], k) + Select(t2, l2, k));
    }
  }

  /** With labels 0 and 1 only, the two groups together hold the whole cohort. */
  lemma {:induction false} GroupsPartitionCohort(times: seq<int>, labels: seq<int>)
    requires |times| == |labels|
    requires forall i :: 0 <= i < |labels| ==> labels[i] == 0 || labels[i] == 1
    ensures multiset(Select(times, labels, 0)) + multiset(Select(times, labels, 1)) == multiset(times)
  {
    if times != [] {
      var t, l := times[1..], labels[1..];
      GroupsPartitionCohort(t, l);
      var m0, m1 := multiset(Select(t, l, 0)), multiset(Select(t, l, 1));
      assert times == [times[0]] + t;
      if labels[0] == 0 {
        assert Select(times, labels, 0) == [times[0]] + Select(t, l, 0);
        assert Select(times, labels, 1) == Select(t, l, 1);
        assert multiset(Select(times, labels, 0)) == multiset{times[0]} + m0;
      } else {
        assert Select(times, labels, 0) == Select(t, l, 0);
        assert Select(times, labels, 1) == [times[0]] + Select(t, l, 1);
        assert multiset(Select(times, labels, 1)) == multiset{times[0]} + m1;
      }
      assert multiset(times) == multiset{times[0]} + multiset(t);
    }
  }

  /** When no subject is labelled `k`, group `k` is empty. */
  lemma {:induction false} SelectNoneLabelled(times: seq<int>, labels: seq<int>, k: int)
    requires |times| == |labels|
    requires forall i :: 0 <= i < |labels| ==> labels[i] != k
    ensures Select(times, labels, k) == []
  {
    if times != [] {
      assert labels[0] != k;
      SelectNoneLabelled(times[1..], labels[1..], k);
    }
  }

  /** When every subject is labelled `k`, group `k` is the whole cohort. */
  lemma {:induction false} SelectAllLabelled(times: seq<int>, labels: seq<int>, k: int)
    requires |times| == |labels|
    requires forall i :: 0 <= i < |labels| ==> labels[i] == k
    ensures Select(times, labels, k) == times
  {
    if times != [] {
      assert labels[0] == k;
      SelectAllLabelled(times[1..], labels[1..], k);
      assert times == [times[0]] + times[1..];
    }
  }

  // ---------------------------------------------------------------------------
  // Observed events and the p-value

  /** 1 for a subject whose death was observed, 0 for a censored one. */
  function Observed(g: seq<int>): (obs: seq<int>)
    ensures |obs| == |g|
    ensures forall i :: 0 <= i < |g| ==> (obs[i] == 1 <==> g[i] != Censored) && (obs[i] == 0 <==> g[i] == Censored)
  {
    seq(|g|, i requires 0 <= i < |g| => if g[i] != Censored then 1 else 0)
  }

  function Sum(s: seq<int>): int {
    if s == [] then 0 else s[0] + Sum(s[1..])
  }

  /** The indicators add up to the number of subjects not at the censoring sentinel. */
  lemma {:induction false} ObservedCountsDeaths(g: seq<int>)
    ensures Sum(Observed(g)) == |g| - Count(g, Censored)
  {
    if g != [] {
      assert Observed(g)[1..] == Observed(g[1..]);
      ObservedCountsDeaths(g[1..]);
    }
  }

  /** The test's p-value, or the sentinel 100.0 when it is NaN. */
  function PValue(test: Option<real>): (p: real)
    ensures test.Some? ==> p == test.value
    ensures test.None? ==> p == NotComputable
    ensures (test.None? || 0.0 <= test.value <= 1.0) ==> (p == NotComputable <==> test.None?)
  {
    match test
    case None => NotComputable
    case Some(v) => v
  }

  // ---------------------------------------------------------------------------
  // The response

  /** Builds the list of day records, one per horizon day, with the p-value beside it. */
  method FormatResponse(days: seq<int>, gp0: seq<real>, gp1: seq<real>, pVal: real) returns (resp: Response)
    requires |days| <= |gp0| && |days| <= |gp1|
    ensures resp.pVal == pVal
    ensures |resp.data| == |days|
    ensures forall i :: 0 <= i < |days| ==> resp.data[i] == Record(days[i], gp0[i], gp1[i])
  {
    resp := Response([], pVal);
    for i := 0 to |days|
      invariant resp.pVal == pVal
      invariant |resp.data| == i
      invariant forall k :: 0 <= k < i ==> resp.data[k] == Record(days[k], gp0[k], gp1[k])
    {
      var item := Record(days[i], gp0[i], gp1[i]);
      resp := resp.(data := resp.data + [item]);
    }
  }

  /**
   * Splits the cohort by label, builds both event tables over the shared horizon, runs the
   * log-rank test and assembles the response.
   */
  method GetSurvivalCurve(times: seq<int>, labels: seq<int>, logrank: LogRank) returns (resp: Response)
    requires |times| == |labels|
    ensures var h := Horizon(times);
      var g0 := Select(times, labels, 0);
      var g1 := Select(times, labels, 1);
      && |resp.data| == |h|
      && (forall i :: 0 <= i < |h| ==>
            resp.data[i] == Record(h[i], Table(g0, h)[i].p, Table(g1, h)[i].p))
      && resp.pVal == PValue(logrank(g0, g1, Observed(g0), Observed(g1)))
  {
    var idx := Horizon(times);
    var group0 := Select(times, labels, 0);
    var group1 := Select(times, labels, 1);
    var table0 := BuildEventTable(group0, idx);
    var table1 := BuildEventTable(group1, idx);
    var obs0 := Observed(group0);
    var obs1 := Observed(group1);
    var pVal := PValue(logrank(group0, group1, obs0, obs1));
    var days := idx;
    var events0 := SurvivalColumn(table0);
    var events1 := SurvivalColumn(table1);
    resp := FormatResponse(days, events0, events1, pVal);
  }

  // ---------------------------------------------------------------------------
  // Properties of the two curves

  /** Every time of a group is a horizon day or later than every horizon day. */
  lemma GroupTimesCovered(times: seq<int>, labels: seq<int>, k: int)
    requires |times| == |labels|
    ensures forall x :: x in Select(times, labels, k) ==>
      x in Horizon(times) || forall d :: d in Horizon(times) ==> d < x
  {
    var h := Horizon(times);
    forall x | x in Select(times, labels, k)
      ensures x in h || forall d :: d in h ==> d < x
    {
      SelectMembers(times, labels, k, x);
      assert x in times;
      if x !in h {
        assert forall d :: d in h ==> d < x;
      }
    }
  }

  /**
   * On each group's curve: the number at risk on a day is the number of the group's
   * subjects whose time is that day or later, 0 <= event <= atRisk, and the survival
   * estimate lies in [0, 1] and does not increase.
   */
  lemma CurveProperties(times: seq<int>, labels: seq<int>, k: int, i: nat, j: nat)
    requires |times| == |labels|
    requires i <= j < |Horizon(times)|
    ensures var h := Horizon(times);
      var g := Select(times, labels, k);
      var t := Table(g, h);
      && t[i].atRisk == AtLeast(g, h[i])
      && 0 <= t[i].event <= t[i].atRisk
      && 0.0 <= t[j].p <= t[i].p <= 1.0
  {
    var h := Horizon(times);
    var g := Select(times, labels, k);
    GroupTimesCovered(times, labels, k);
    AtRiskIsAtLeastDay(g, h, i);
    EventsWithinAtRisk(g, h, i);
    SurvivalInUnit(g, h, i);
    SurvivalInUnit(g, h, j);
    SurvivalNonIncreasing(g, h, i, j);
  }

  /**
   * When every subject is labelled 1 and the test yields NaN for an empty first group,
   * the p-value is the sentinel 100.0 and group 0's curve stays at 1.
   */
  lemma AllLabelledOneGivesSentinel(times: seq<int>, labels: seq<int>, logrank: LogRank)
    requires |times| == |labels|
    requires forall i :: 0 <= i < |labels| ==> labels[i] == 1
    requires forall b, ob :: logrank([], b, [], ob).None?
    ensures var g0 := Select(times, labels, 0);
      var g1 := Select(times, labels, 1);
      && g0 == [] && g1 == times
      && PValue(logrank(g0, g1, Observed(g0), Observed(g1))) == NotComputable
      && forall i :: 0 <= i < |Horizon(times)| ==> Table(g0, Horizon(times))[i].p == 1.0
  {
    SelectNoneLabelled(times, labels, 0);
    SelectAllLabelled(times, labels, 1);
    assert Observed([]) == [];
    EmptyGroupTable(Horizon(times));
  }
}
