/**
 * The Kaplan-Meier event table of one group of subjects over a shared horizon of days
 * (`build_event_table` in python-server/model.py).
 *
 * A group is the sequence of its subjects' recorded times (days to death, or the
 * censoring sentinel). Each row of the table holds the number of subjects whose time is
 * exactly that day (`event`), the number still at risk going into that day (`atRisk`)
 * and the cumulative survival estimate (`p`).
 */
module EventTable {

  datatype Row = Row(day: int, event: nat, atRisk: int, p: real)

  /** No day occurs twice. */
  ghost predicate Distinct(s: seq<int>) {
    forall i, j :: 0 <= i < j < |s| ==> s[i] != s[j]
  }

  /** Ascending without repetition, as the horizon is built. */
  ghost predicate StrictlyAscending(s: seq<int>) {
    forall i, j :: 0 <= i < j < |s| ==> s[i] < s[j]
  }

  // ---------------------------------------------------------------------------
  // Counting subjects

  /** The number of subjects in `g` whose time is exactly `t`. */
  function Count(g: seq<int>, t: int): nat {
    if g == [] then 0 else (if g[0] == t then 1 else 0) + Count(g[1..], t)
  }

  /** The count is the multiplicity of the time in the group. */
  lemma {:induction false} CountIsMultiplicity(g: seq<int>, t: int)
    ensures Count(g, t) == multiset(g)[t]
  {
    if g != [] {
      CountIsMultiplicity(g[1..], t);
      assert g == [g[0]] + g[1..];
    }
  }

  /** The number of subjects in `g` whose time is none of the days in `ds`. */
  function Outside(g: seq<int>, ds: seq<int>): nat {
    if g == [] then 0 else (if g[0] in ds then 0 else 1) + Outside(g[1..], ds)
  }

  /** The number of subjects in `g` whose time is `t` or later. */
  function AtLeast(g: seq<int>, t: int): nat {
    if g == [] then 0 else (if g[0] >= t then 1 else 0) + AtLeast(g[1..], t)
  }

  /** The frequency table of the group's times (pandas `value_counts`). */
  function ValueCounts(g: seq<int>): (vc: map<int, nat>)
    ensures forall t :: t in vc <==> t in g
    ensures forall t :: Count(g, t) == if t in vc then vc[t] else 0
  {
    if g == [] then map[]
    else
      var rest := ValueCounts(g[1..]);
      rest[g[0] := (if g[0] in rest then rest[g[0]] else 0) + 1]
  }

  // ---------------------------------------------------------------------------
  // The table as a left fold over the horizon

  /** The divisor used for `atRisk`: zero is replaced by one. */
  function Divisor(atRisk: int): int {
    if atRisk == 0 then 1 else atRisk
  }

  /** The row for `day` given the number at risk and the previous survival estimate. */
  function Step(group: seq<int>, day: int, atRisk: int, pPrev: real): Row {
    var e := Count(group, day);
    Row(day, e, atRisk, Survive(pPrev, e, Divisor(atRisk)))
  }

  /** The survival estimate after `event` of `atRisk` subjects fail. */
  function Survive(pPrev: real, event: nat, atRisk: int): real
    requires atRisk != 0
  {
    pPrev * (1.0 - event as real / atRisk as real)
  }

  /** The rows for `days`, carrying the number at risk and the survival estimate. */
  function TableFrom(group: seq<int>, days: seq<int>, atRisk: int, pPrev: real): (rows: seq<Row>)
    ensures |rows| == |days|
    decreases |days|
  {
    if days == [] then []
    else
      var r := Step(group, days[0], atRisk, pPrev);
      [r] + TableFrom(group, days[1..], atRisk - r.event, r.p)
  }

  /** Row `k` is for day `k` and its event count is the number of subjects whose time is that day. */
  lemma {:induction false} TableFromRows(group: seq<int>, days: seq<int>, atRisk: int, pPrev: real, k: nat)
    requires k < |days|
    ensures TableFrom(group, days, atRisk, pPrev)[k].day == days[k]
    ensures TableFrom(group, days, atRisk, pPrev)[k].event == Count(group, days[k])
    decreases |days|
  {
    if k > 0 {
      var r := Step(group, days[0], atRisk, pPrev);
      TableFromRows(group, days[1..], atRisk - r.event, r.p, k - 1);
    }
  }

  /** The event table: the fold started from the whole group at risk and survival 1. */
  function Table(group: seq<int>, horizon: seq<int>): seq<Row> {
    TableFrom(group, horizon, |group|, 1.0)
  }

  /** The survival column of a table. */
  function SurvivalColumn(rows: seq<Row>): (ps: seq<real>)
    ensures |ps| == |rows|
    ensures forall k :: 0 <= k < |rows| ==> ps[k] == rows[k].p
  {
    seq(|rows|, k requires 0 <= k < |rows| => rows[k].p)
  }

  // ---------------------------------------------------------------------------
  // The imperative builder

  /**
   * Allocates a zero table indexed by the horizon, then fills it row by row, reading
   * the number at risk and the survival estimate back from the previous row.
   */
  method BuildEventTable(group: seq<int>, horizon: seq<int>) returns (rows: seq<Row>)
    ensures rows == Table(group, horizon)
  {
    var n := |horizon|;
    var table := new Row[n](k requires 0 <= k < n => Row(horizon[k], 0, 0, 0.0));
    var vc := ValueCounts(group);
    ghost var spec := Table(group, horizon);
    var i := 0;
    while i < n
      invariant 0 <= i <= n
      invariant forall k :: 0 <= k < i ==> table[k] == spec[k]
      invariant forall k :: i <= k < n ==> table[k].day == horizon[k]
    {
      var row := table[i];
      var atRisk: int;
      var pPrev: real;
      if i == 0 {
        atRisk := |group|;
        pPrev := 1.0;
      } else {
        atRisk := table[i - 1].atRisk - table[i - 1].event;
        pPrev := table[i - 1].p;
      }
      var eventNum: nat := if row.day in vc then vc[row.day] else 0;
      assert row.day == horizon[i] && eventNum == Count(group, horizon[i]);
      row := row.(event := eventNum);
      row := row.(atRisk := atRisk);
      if atRisk == 0 {
        atRisk := 1;
      }
      row := row.(p := Survive(pPrev, eventNum, atRisk));
      NextRow(group, horizon, i, row.atRisk, pPrev);
      assert row == spec[i];
      table[i] := row;
      i := i + 1;
    }
    rows := table[..];
  }

  /** Row `i` of the table is the step from the number at risk and survival estimate it starts from. */
  lemma NextRow(group: seq<int>, horizon: seq<int>, i: nat, atRisk: int, pPrev: real)
    requires i < |horizon|
    requires i == 0 ==> atRisk == |group| && pPrev == 1.0
    requires i > 0 ==> atRisk == Table(group, horizon)[i - 1].atRisk - Table(group, horizon)[i - 1].event
    requires i > 0 ==> pPrev == Table(group, horizon)[i - 1].p
    ensures Table(group, horizon)[i] == Step(group, horizon[i], atRisk, pPrev)
  {
    RowRecurrence(group, horizon, i);
  }

  // ---------------------------------------------------------------------------
  // The recurrence, row by row

  lemma {:induction false} TableFromRecurrence(group: seq<int>, days: seq<int>, atRisk: int, pPrev: real, i: nat)
    requires 0 < i < |days|
    ensures var t := TableFrom(group, days, atRisk, pPrev);
      t[i] == Step(group, days[i], t[i - 1].atRisk - t[i - 1].event, t[i - 1].p)
  {
    var r := Step(group, days[0], atRisk, pPrev);
    var rest := TableFrom(group, days[1..], atRisk - r.event, r.p);
    assert TableFrom(group, days, atRisk, pPrev) == [r] + rest;
    if i == 1 {
      assert rest[0] == Step(group, days[1..][0], atRisk - r.event, r.p);
    } else {
      TableFromRecurrence(group, days[1..], atRisk - r.event, r.p, i - 1);
    }
  }

  /**
   * Row 0 starts from the whole group at risk and survival 1; every later row starts
   * from the previous row's `atRisk - event` and `p`.
   */
  lemma RowRecurrence(group: seq<int>, horizon: seq<int>, i: nat)
    requires i < |horizon|
    ensures var t := Table(group, horizon);
      t[i] == if i == 0 then Step(group, horizon[0], |group|, 1.0)
              else Step(group, horizon[i], t[i - 1].atRisk - t[i - 1].event, t[i - 1].p)
  {
    if i > 0 {
      TableFromRecurrence(group, horizon, |group|, 1.0, i);
    }
  }

  // ---------------------------------------------------------------------------
  // What the numbers at risk count

  lemma {:induction false} OutsideNone(g: seq<int>)
    ensures Outside(g, []) == |g|
  {
    if g != [] {
      OutsideNone(g[1..]);
    }
  }

  lemma {:induction false} OutsideExtend(g: seq<int>, ds: seq<int>, d: int)
    requires d !in ds
    ensures Outside(g, ds + [d]) == Outside(g, ds) - Count(g, d)
    ensures Count(g, d) <= Outside(g, ds)
  {
    if g != [] {
      OutsideExtend(g[1..], ds, d);
      assert g[0] in ds + [d] <==> g[0] in ds || g[0] == d;
    }
  }

  /**
   * With no repeated day, the number at risk on row `i` is the number of subjects whose
   * time is none of the days before it.
   */
  lemma {:induction false} AtRiskCountsRemaining(group: seq<int>, horizon: seq<int>, i: nat)
    requires Distinct(horizon) && i < |horizon|
    ensures Table(group, horizon)[i].atRisk == Outside(group, horizon[..i])
  {
    var t := Table(group, horizon);
    RowRecurrence(group, horizon, i);
    if i == 0 {
      OutsideNone(group);
      assert horizon[..0] == [];
    } else {
      AtRiskCountsRemaining(group, horizon, i - 1);
      TableFromRows(group, horizon, |group|, 1.0, i - 1);
      assert horizon[..i] == horizon[..i - 1] + [horizon[i - 1]];
      assert horizon[i - 1] !in horizon[..i - 1];
      OutsideExtend(group, horizon[..i - 1], horizon[i - 1]);
    }
  }

  /** With no repeated day, 0 <= event <= atRisk on every row. */
  lemma EventsWithinAtRisk(group: seq<int>, horizon: seq<int>, i: nat)
    requires Distinct(horizon) && i < |horizon|
    ensures 0 <= Table(group, horizon)[i].event <= Table(group, horizon)[i].atRisk
  {
    AtRiskCountsRemaining(group, horizon, i);
    TableFromRows(group, horizon, |group|, 1.0, i);
    assert horizon[i] !in horizon[..i];
    OutsideExtend(group, horizon[..i], horizon[i]);
  }

  lemma {:induction false} OutsideIsAtLeast(g: seq<int>, ds: seq<int>, t: int)
    requires forall x :: x in g ==> (x !in ds <==> x >= t)
    ensures Outside(g, ds) == AtLeast(g, t)
  {
    if g != [] {
      assert g[0] in g;
      OutsideIsAtLeast(g[1..], ds, t);
    }
  }

  /**
   * The Kaplan-Meier at-risk set: when the horizon is ascending and every subject's time
   * is either a horizon day or later than all of them, the number at risk on row `i` is
   * the number of subjects whose time is that day or later.
   */
  lemma AtRiskIsAtLeastDay(group: seq<int>, horizon: seq<int>, i: nat)
    requires StrictlyAscending(horizon) && i < |horizon|
    requires forall x :: x in group ==> x in horizon || forall d :: d in horizon ==> d < x
    ensures Table(group, horizon)[i].atRisk == AtLeast(group, horizon[i])
  {
    AtRiskCountsRemaining(group, horizon, i);
    forall x | x in group
      ensures x !in horizon[..i] <==> x >= horizon[i]
    {
      if x in horizon {
        var j :| 0 <= j < |horizon| && horizon[j] == x;
        assert x in horizon[..i] <==> j < i;
      } else {
        assert horizon[i] in horizon;
      }
    }
    OutsideIsAtLeast(group, horizon[..i], horizon[i]);
  }

  // ---------------------------------------------------------------------------
  // Monotonicity and bounds

  /** The number at risk never increases from one row to a later one. */
  lemma {:induction false} AtRiskNonIncreasing(group: seq<int>, horizon: seq<int>, i: nat, j: nat)
    requires i <= j < |horizon|
    ensures Table(group, horizon)[j].atRisk <= Table(group, horizon)[i].atRisk
    decreases j - i
  {
    if i < j {
      AtRiskNonIncreasing(group, horizon, i, j - 1);
      RowRecurrence(group, horizon, j);
    }
  }

  /** With no repeated day, the number at risk is never negative. */
  lemma AtRiskNonNegative(group: seq<int>, horizon: seq<int>, i: nat)
    requires Distinct(horizon) && i < |horizon|
    ensures Table(group, horizon)[i].atRisk >= 0
  {
    AtRiskCountsRemaining(group, horizon, i);
  }

  lemma MulWithinUnit(x: real, f: real)
    requires 0.0 <= x && 0.0 <= f <= 1.0
    ensures 0.0 <= x * f <= x
  {
  }

  lemma SurviveInUnit(pPrev: real, event: nat, atRisk: int)
    requires 0.0 <= pPrev <= 1.0 && event <= atRisk
    ensures 0.0 <= Survive(pPrev, event, Divisor(atRisk)) <= pPrev
  {
    if atRisk == 0 {
      assert event == 0;
      assert Survive(pPrev, event, Divisor(atRisk)) == pPrev * (1.0 - 0.0 / 1.0);
    } else {
      var d := atRisk as real;
      var e := event as real;
      var q := e / d;
      assert 0.0 < d && 0.0 <= e <= d;
      assert q * d == e;
      assert 0.0 <= q <= 1.0;
      assert Survive(pPrev, event, Divisor(atRisk)) == pPrev * (1.0 - q);
      MulWithinUnit(pPrev, 1.0 - q);
    }
  }

  /** With no repeated day, every survival estimate lies in [0, 1] and is at most the previous one. */
  lemma {:induction false} SurvivalInUnit(group: seq<int>, horizon: seq<int>, i: nat)
    requires Distinct(horizon) && i < |horizon|
    ensures 0.0 <= Table(group, horizon)[i].p <= 1.0
    ensures i > 0 ==> Table(group, horizon)[i].p <= Table(group, horizon)[i - 1].p
  {
    var t := Table(group, horizon);
    RowRecurrence(group, horizon, i);
    EventsWithinAtRisk(group, horizon, i);
    if i == 0 {
      SurviveInUnit(1.0, t[0].event, t[0].atRisk);
    } else {
      SurvivalInUnit(group, horizon, i - 1);
      SurviveInUnit(t[i - 1].p, t[i].event, t[i].atRisk);
    }
  }

  /** With no repeated day, the survival estimate never increases from one row to a later one. */
  lemma {:induction false} SurvivalNonIncreasing(group: seq<int>, horizon: seq<int>, i: nat, j: nat)
    requires Distinct(horizon) && i <= j < |horizon|
    ensures Table(group, horizon)[j].p <= Table(group, horizon)[i].p
    decreases j - i
  {
    if i < j {
      SurvivalNonIncreasing(group, horizon, i, j - 1);
      SurvivalInUnit(group, horizon, j);
    }
  }

  /** A day on which nobody is at risk leaves the survival estimate unchanged. */
  lemma NoneAtRiskKeepsSurvival(group: seq<int>, horizon: seq<int>, i: nat)
    requires Distinct(horizon) && 0 < i < |horizon|
    requires Table(group, horizon)[i].atRisk == 0
    ensures Table(group, horizon)[i].event == 0
    ensures Table(group, horizon)[i].p == Table(group, horizon)[i - 1].p
  {
    RowRecurrence(group, horizon, i);
    EventsWithinAtRisk(group, horizon, i);
  }

  // ---------------------------------------------------------------------------
  // The product-limit form

  /** The factor a row contributes to the Kaplan-Meier product. */
  function Factor(r: Row): real {
    1.0 - r.event as real / Divisor(r.atRisk) as real
  }

  /** The Kaplan-Meier product of the factors of `rows`. */
  function ProductLimit(rows: seq<Row>): real {
    if rows == [] then 1.0 else ProductLimit(rows[..|rows| - 1]) * Factor(rows[|rows| - 1])
  }

  /** Each survival estimate is the product of the factors of its row and all earlier rows. */
  lemma {:induction false} SurvivalIsProductLimit(group: seq<int>, horizon: seq<int>, i: nat)
    requires i < |horizon|
    ensures Table(group, horizon)[i].p == ProductLimit(Table(group, horizon)[..i + 1])
  {
    var t := Table(group, horizon);
    RowRecurrence(group, horizon, i);
    assert t[..i + 1][..i] == t[..i];
    if i == 0 {
      assert t[..0] == [];
    } else {
      SurvivalIsProductLimit(group, horizon, i - 1);
    }
  }

  // ---------------------------------------------------------------------------
  // The empty group

  lemma {:induction false} EmptyGroupFrom(days: seq<int>)
    ensures forall k :: 0 <= k < |days| ==> TableFrom([], days, 0, 1.0)[k] == Row(days[k], 0, 0, 1.0)
  {
    if days != [] {
      EmptyGroupFrom(days[1..]);
      assert Step([], days[0], 0, 1.0) == Row(days[0], 0, 0, 1.0);
    }
  }

  /** An empty group gives zero events, zero at risk and survival 1 on every row. */
  lemma EmptyGroupTable(horizon: seq<int>)
    ensures |Table([], horizon)| == |horizon|
    ensures forall k :: 0 <= k < |horizon| ==> Table([], horizon)[k] == Row(horizon[k], 0, 0, 1.0)
  {
    EmptyGroupFrom(horizon);
  }

  /** One event at day 10 among three subjects, two of them censored. */
  lemma OneEventTwoCensored()
    ensures Table([10, 1000000, 1000000], [10]) == [Row(10, 1, 3, 2.0 / 3.0)]
  {
  }
}
