/** Cutting the record into periods and the per-period statistics tables
    (program_10.py, GetAnnualStatistics and GetMonthlyStatistics). A water
    year starts on October 1; a month starts on its first day. A row is
    labelled with the first day of its period, and the table has one row
    for every period from the earliest to the latest one the record
    touches, empty periods included. */
module Periods {
  import opened Optional
  import opened Numeric
  import opened Series
  import opened Metrics

  /** How the record is cut: water years or calendar months. */
  datatype Frequency = WaterYear | Month

  /** The key of the period that contains `d`: the calendar year in which
      its water year starts, or a running month number. */
  function PeriodOf(f: Frequency, d: Date): int
  {
    match f
    case WaterYear => if d.month >= 10 then d.year else d.year - 1
    case Month => d.year * 12 + (d.month - 1)
  }

  /** The first day of period `k`, the label of its row. */
  function PeriodStart(f: Frequency, k: int): Date
  {
    match f
    case WaterYear => Date(k, 10, 1)
    case Month => Date(k / 12, k % 12 + 1, 1)
  }

  // ---------------------------------------------------------------------------
  // The calendar partition

  /** Every period starts on a valid date and that date lies in the period. */
  lemma PeriodStartRoundTrip(f: Frequency, k: int)
    ensures ValidDate(PeriodStart(f, k))
    ensures PeriodOf(f, PeriodStart(f, k)) == k
  {
  }

  /** A valid date lies in period `k` exactly when it falls on or after the
      start of `k` and before the start of `k + 1`: the periods are
      consecutive and do not overlap. */
  lemma PeriodBounds(f: Frequency, d: Date, k: int)
    requires ValidDate(d)
    ensures PeriodOf(f, d) == k <==> DateLe(PeriodStart(f, k), d) && DateLt(d, PeriodStart(f, k + 1))
  {
    if f == Month {
      var a, b := k / 12, k % 12;
      assert k == 12 * a + b;
      if b < 11 {
        assert PeriodStart(f, k + 1) == Date(a, b + 2, 1);
      } else {
        assert PeriodStart(f, k + 1) == Date(a + 1, 1, 1);
      }
      assert PeriodStart(f, k) == Date(a, b + 1, 1);
    }
  }

  /** The first day of the month after the month of `d`. */
  function NextMonth(d: Date): Date
  {
    if d.month == 12 then Date(d.year + 1, 1, 1) else Date(d.year, d.month + 1, 1)
  }

  /** Consecutive month keys are consecutive calendar months. */
  lemma MonthSuccessor(k: int)
    ensures PeriodStart(Month, k + 1) == NextMonth(PeriodStart(Month, k))
  {
    assert k == 12 * (k / 12) + k % 12;
  }

  /** Later periods start later. */
  lemma PeriodStartIncreasing(f: Frequency, k: int, l: int)
    requires k < l
    ensures DateLt(PeriodStart(f, k), PeriodStart(f, l))
  {
    if f == Month {
      assert k == 12 * (k / 12) + k % 12;
      assert l == 12 * (l / 12) + l % 12;
    }
  }

  // ---------------------------------------------------------------------------
  // Grouping the record

  /** The observations of period `k`, in record order. */
  function Members(obs: seq<Observation>, f: Frequency, k: int): seq<Observation>
  {
    if obs == [] then []
    else
      var rest := Members(obs[1..], f, k);
      if PeriodOf(f, obs[0].date) == k then [obs[0]] + rest else rest
  }

  /** Period `k` holds exactly the observations dated within it. */
  lemma {:induction false} MembersSpec(obs: seq<Observation>, f: Frequency, k: int)
    ensures |Members(obs, f, k)| <= |obs|
    ensures forall o :: o in Members(obs, f, k) <==> o in obs && PeriodOf(f, o.date) == k
  {
    if obs != [] {
      MembersSpec(obs[1..], f, k);
      assert forall o :: o in obs <==> o == obs[0] || o in obs[1..];
    }
  }

  /** A period's group keeps record order. */
  lemma {:induction false} MembersKeepOrder(obs: seq<Observation>, f: Frequency, k: int)
    ensures Subsequence(Members(obs, f, k), obs)
  {
    if obs != [] {
      MembersKeepOrder(obs[1..], f, k);
      var rest := Members(obs[1..], f, k);
      if PeriodOf(f, obs[0].date) == k {
        assert ([obs[0]] + rest)[1..] == rest;
      } else if rest != [] {
        SubsequenceSkip(rest, obs);
      }
    }
  }

  /** Later valid dates never fall in earlier periods. */
  lemma PeriodOfMonotone(f: Frequency, a: Date, b: Date)
    requires ValidDate(a) && ValidDate(b) && DateLe(a, b)
    ensures PeriodOf(f, a) <= PeriodOf(f, b)
  {
  }

  /** On a chronological record of valid dates, a period's group is one
      contiguous run of rows, as binning a date-sorted index gives. */
  lemma MembersAreContiguous(obs: seq<Observation>, f: Frequency, k: int)
    requires Chronological(obs)
    requires forall i :: 0 <= i < |obs| ==> ValidDate(obs[i].date)
    ensures exists i, j :: 0 <= i <= j <= |obs| && Members(obs, f, k) == obs[i..j]
  {
    var i, j := MembersBounds(obs, f, k);
  }

  lemma {:induction false} MembersBounds(obs: seq<Observation>, f: Frequency, k: int) returns (i: nat, j: nat)
    requires Chronological(obs)
    requires forall n :: 0 <= n < |obs| ==> ValidDate(obs[n].date)
    ensures i <= j <= |obs| && Members(obs, f, k) == obs[i..j]
  {
    if obs == [] {
      i, j := 0, 0;
    } else if PeriodOf(f, obs[0].date) < k {
      ChronologicalTail(obs);
      i, j := MembersBounds(obs[1..], f, k);
      i, j := i + 1, j + 1;
    } else {
      LaterPeriods(obs, f);
      j := MembersPrefix(obs, f, k);
      i := 0;
    }
  }

  /** On a chronological record of valid dates, no observation falls in an
      earlier period than the first one. */
  lemma LaterPeriods(obs: seq<Observation>, f: Frequency)
    requires obs != [] && Chronological(obs)
    requires forall n :: 0 <= n < |obs| ==> ValidDate(obs[n].date)
    ensures forall n :: 0 <= n < |obs| ==> PeriodOf(f, obs[0].date) <= PeriodOf(f, obs[n].date)
  {
    forall n | 0 < n < |obs| ensures PeriodOf(f, obs[0].date) <= PeriodOf(f, obs[n].date) {
      assert DateLt(obs[0].date, obs[n].date);
      PeriodOfMonotone(f, obs[0].date, obs[n].date);
    }
  }

  /** When no observation falls before period `k`, its group is a prefix. */
  lemma {:induction false} MembersPrefix(obs: seq<Observation>, f: Frequency, k: int) returns (j: nat)
    requires Chronological(obs)
    requires forall n :: 0 <= n < |obs| ==> ValidDate(obs[n].date)
    requires forall n :: 0 <= n < |obs| ==> k <= PeriodOf(f, obs[n].date)
    ensures j <= |obs| && Members(obs, f, k) == obs[..j]
  {
    if obs == [] {
      j := 0;
    } else if PeriodOf(f, obs[0].date) == k {
      ChronologicalTail(obs);
      j := MembersPrefix(obs[1..], f, k);
      assert [obs[0]] + obs[1..][..j] == obs[..j + 1];
      j := j + 1;
    } else {
      LaterPeriods(obs, f);
      MembersNone(obs, f, k);
      j := 0;
    }
  }

  lemma {:induction false} MembersNone(obs: seq<Observation>, f: Frequency, k: int)
    requires forall n :: 0 <= n < |obs| ==> PeriodOf(f, obs[n].date) != k
    ensures Members(obs, f, k) == []
  {
    if obs != [] {
      MembersNone(obs[1..], f, k);
    }
  }

  /** The smallest site number among `m`, absent when `m` is empty. */
  function MinSite(m: seq<Observation>): (r: Option<int>)
    ensures r.None? <==> m == []
    ensures r.Some? ==> exists i :: 0 <= i < |m| && m[i].siteNo == r.value
    ensures r.Some? ==> forall i :: 0 <= i < |m| ==> r.value <= m[i].siteNo
  {
    if m == [] then None
    else
      var s := MinInt(Sites(m));
      assert exists i :: 0 <= i < |m| && Sites(m)[i] == s;
      Some(s)
  }

  function Sites(m: seq<Observation>): (s: seq<int>)
    ensures |s| == |m|
    ensures forall i :: 0 <= i < |m| ==> s[i] == m[i].siteNo
  {
    seq(|m|, i requires 0 <= i < |m| => m[i].siteNo)
  }

  /** The period keys of the observations. */
  function Keys(obs: seq<Observation>, f: Frequency): (ks: seq<int>)
    ensures |ks| == |obs|
    ensures forall i :: 0 <= i < |obs| ==> ks[i] == PeriodOf(f, obs[i].date)
  {
    seq(|obs|, i requires 0 <= i < |obs| => PeriodOf(f, obs[i].date))
  }

  /** The keys of the table's rows: every period from the earliest to the
      latest one that holds an observation. */
  function Span(obs: seq<Observation>, f: Frequency): (ks: seq<int>)
    ensures ks == [] <==> obs == []
    ensures forall i :: 0 <= i < |ks| ==> ks[i] == ks[0] + i
    ensures forall j :: 0 <= j < |obs| ==> ks[0] <= PeriodOf(f, obs[j].date) <= ks[|ks| - 1]
    ensures ks != [] ==> exists j :: 0 <= j < |obs| && PeriodOf(f, obs[j].date) == ks[0]
    ensures ks != [] ==> exists j :: 0 <= j < |obs| && PeriodOf(f, obs[j].date) == ks[|ks| - 1]
  {
    if obs == [] then []
    else
      var keys := Keys(obs, f);
      var lo, hi := MinInt(keys), MaxInt(keys);
      assert exists j :: 0 <= j < |obs| && keys[j] == lo;
      assert exists j :: 0 <= j < |obs| && keys[j] == hi;
      seq(hi - lo + 1, i requires 0 <= i < hi - lo + 1 => lo + i)
  }

  // ---------------------------------------------------------------------------
  // The tables

  /** One row of the annual table (the Coeff Var and Skew columns are not
      modelled). */
  datatype AnnualRow = AnnualRow(
    start: Date,
    siteNo: Option<int>,
    meanFlow: Option<real>,
    peakFlow: Option<real>,
    medianFlow: Option<real>,
    tqmean: Option<real>,
    rbIndex: Option<real>,
    sevenQ: Option<real>,
    exceed3xMedian: nat)

  /** One row of the monthly table (the Coeff Var column is not modelled). */
  datatype MonthlyRow = MonthlyRow(
    start: Date,
    siteNo: Option<int>,
    meanFlow: Option<real>,
    tqmean: Option<real>,
    rbIndex: Option<real>)

  /** The statistics of water year `k`, computed from its observations. */
  function AnnualRowOf(obs: seq<Observation>, k: int): AnnualRow
  {
    var m := Members(obs, WaterYear, k);
    var q := Discharges(m);
    AnnualRow(PeriodStart(WaterYear, k), MinSite(m), MeanSkipNa(q), PeakFlow(q), MedianFlow(q),
      CalcTqmean(q), CalcRBindex(q), Calc7Q(q), CalcExceed3TimesMedian(q))
  }

  /** The statistics of month `k`, computed from its observations. */
  function MonthlyRowOf(obs: seq<Observation>, k: int): MonthlyRow
  {
    var m := Members(obs, Month, k);
    var q := Discharges(m);
    MonthlyRow(PeriodStart(Month, k), MinSite(m), MeanSkipNa(q), CalcTqmean(q), CalcRBindex(q))
  }

  /** One row per water year from the first to the last one the record
      touches. */
  function GetAnnualStatistics(obs: seq<Observation>): (rows: seq<AnnualRow>)
    ensures |rows| == |Span(obs, WaterYear)|
    ensures rows == [] <==> obs == []
  {
    var ks := Span(obs, WaterYear);
    seq(|ks|, i requires 0 <= i < |ks| => AnnualRowOf(obs, ks[i]))
  }

  /** One row per calendar month from the first to the last one the record
      touches. */
  function GetMonthlyStatistics(obs: seq<Observation>): (rows: seq<MonthlyRow>)
    ensures |rows| == |Span(obs, Month)|
    ensures rows == [] <==> obs == []
  {
    var ks := Span(obs, Month);
    seq(|ks|, i requires 0 <= i < |ks| => MonthlyRowOf(obs, ks[i]))
  }

  // ---------------------------------------------------------------------------
  // Properties of the tables

  /** The annual rows are labelled October 1 of consecutive years. */
  lemma AnnualRowsAreWaterYears(obs: seq<Observation>)
    ensures var rows := GetAnnualStatistics(obs);
      forall i :: 0 <= i < |rows| ==> rows[i].start.month == 10 && rows[i].start.day == 1
    ensures var rows := GetAnnualStatistics(obs);
      forall i :: 0 <= i < |rows| - 1 ==> rows[i + 1].start.year == rows[i].start.year + 1
  {
    var rows := GetAnnualStatistics(obs);
    var ks := Span(obs, WaterYear);
    forall i | 0 <= i < |rows| ensures rows[i].start == Date(ks[i], 10, 1) {
      assert rows[i] == AnnualRowOf(obs, ks[i]);
    }
  }

  /** Row `i` of the monthly table is labelled with the first day of the
      `i`-th month after the first month of the record. */
  lemma MonthlyRowStart(obs: seq<Observation>, i: int)
    requires 0 <= i < |GetMonthlyStatistics(obs)|
    ensures GetMonthlyStatistics(obs)[i].start == PeriodStart(Month, Span(obs, Month)[0] + i)
  {
    var ks := Span(obs, Month);
    assert GetMonthlyStatistics(obs)[i] == MonthlyRowOf(obs, ks[i]);
  }

  /** Rows labelled with the first days of consecutive months. */
  ghost predicate ConsecutiveMonths(t: seq<MonthlyRow>)
  {
    (forall i :: 0 <= i < |t| ==> ValidDate(t[i].start) && t[i].start.day == 1)
    && (forall i :: 0 <= i < |t| - 1 ==> t[i + 1].start == NextMonth(t[i].start))
  }

  /** Rows labelled with the starts of consecutive month keys are labelled
      with the first days of consecutive months. */
  lemma KeyedMonthsAreConsecutive(t: seq<MonthlyRow>, k0: int)
    requires forall i :: 0 <= i < |t| ==> t[i].start == PeriodStart(Month, k0 + i)
    ensures ConsecutiveMonths(t)
  {
    forall i | 0 <= i < |t| ensures ValidDate(t[i].start) && t[i].start.day == 1 {
      PeriodStartRoundTrip(Month, k0 + i);
    }
    forall i | 0 <= i < |t| - 1 ensures t[i + 1].start == NextMonth(t[i].start) {
      MonthSuccessor(k0 + i);
    }
  }

  /** The monthly rows are labelled with the first days of consecutive
      months. */
  lemma MonthlyRowsAreMonths(obs: seq<Observation>)
    ensures ConsecutiveMonths(GetMonthlyStatistics(obs))
  {
    var rows := GetMonthlyStatistics(obs);
    if rows != [] {
      var k0 := Span(obs, Month)[0];
      forall i | 0 <= i < |rows| ensures rows[i].start == PeriodStart(Month, k0 + i) {
        MonthlyRowStart(obs, i);
      }
      KeyedMonthsAreConsecutive(rows, k0);
    }
  }

  /** Every observation falls in the period of some row of the table. */
  lemma SpanCovers(obs: seq<Observation>, f: Frequency, j: int)
    requires 0 <= j < |obs|
    ensures var ks := Span(obs, f);
      0 <= PeriodOf(f, obs[j].date) - ks[0] < |ks| && ks[PeriodOf(f, obs[j].date) - ks[0]] == PeriodOf(f, obs[j].date)
  {
    var ks := Span(obs, f);
    var i := PeriodOf(f, obs[j].date) - ks[0];
    assert ks[|ks| - 1] == ks[0] + (|ks| - 1);
    assert 0 <= i < |ks|;
    assert ks[i] == ks[0] + i;
  }

  /** Grouping an already grouped record changes nothing. */
  lemma {:induction false} MembersIdempotent(obs: seq<Observation>, f: Frequency, k: int)
    ensures Members(Members(obs, f, k), f, k) == Members(obs, f, k)
  {
    if obs != [] {
      MembersIdempotent(obs[1..], f, k);
      var rest := Members(obs[1..], f, k);
      if PeriodOf(f, obs[0].date) == k {
        assert ([obs[0]] + rest)[1..] == rest;
      }
    }
  }

  /** A row is computed from the observations of its own period alone: the
      rest of the record does not affect it. */
  lemma AnnualRowIsLocal(obs: seq<Observation>, k: int)
    ensures AnnualRowOf(Members(obs, WaterYear, k), k) == AnnualRowOf(obs, k)
  {
    MembersIdempotent(obs, WaterYear, k);
  }

  lemma MonthlyRowIsLocal(obs: seq<Observation>, k: int)
    ensures MonthlyRowOf(Members(obs, Month, k), k) == MonthlyRowOf(obs, k)
  {
    MembersIdempotent(obs, Month, k);
  }

  /** The site number of a row is absent exactly when no observation falls
      in its period, and otherwise it is the smallest site number among the
      observations of the period. */
  lemma AnnualRowSite(obs: seq<Observation>, i: int)
    requires 0 <= i < |GetAnnualStatistics(obs)|
    ensures var k := Span(obs, WaterYear)[i];
      var r := GetAnnualStatistics(obs)[i].siteNo;
      (r.None? <==> forall j :: 0 <= j < |obs| ==> PeriodOf(WaterYear, obs[j].date) != k)
      && (r.Some? ==> forall j :: 0 <= j < |obs| && PeriodOf(WaterYear, obs[j].date) == k ==> r.value <= obs[j].siteNo)
      && (r.Some? ==> exists j :: 0 <= j < |obs| && PeriodOf(WaterYear, obs[j].date) == k && obs[j].siteNo == r.value)
  {
    var k := Span(obs, WaterYear)[i];
    assert GetAnnualStatistics(obs)[i] == AnnualRowOf(obs, k);
    SiteOfPeriod(obs, WaterYear, k);
  }

  lemma MonthlyRowSite(obs: seq<Observation>, i: int)
    requires 0 <= i < |GetMonthlyStatistics(obs)|
    ensures var k := Span(obs, Month)[i];
      var r := GetMonthlyStatistics(obs)[i].siteNo;
      (r.None? <==> forall j :: 0 <= j < |obs| ==> PeriodOf(Month, obs[j].date) != k)
      && (r.Some? ==> forall j :: 0 <= j < |obs| && PeriodOf(Month, obs[j].date) == k ==> r.value <= obs[j].siteNo)
      && (r.Some? ==> exists j :: 0 <= j < |obs| && PeriodOf(Month, obs[j].date) == k && obs[j].siteNo == r.value)
  {
    var k := Span(obs, Month)[i];
    assert GetMonthlyStatistics(obs)[i] == MonthlyRowOf(obs, k);
    SiteOfPeriod(obs, Month, k);
  }

  lemma SiteOfPeriod(obs: seq<Observation>, f: Frequency, k: int)
    ensures var r := MinSite(Members(obs, f, k));
      (r.None? <==> forall j :: 0 <= j < |obs| ==> PeriodOf(f, obs[j].date) != k)
      && (r.Some? ==> forall j :: 0 <= j < |obs| && PeriodOf(f, obs[j].date) == k ==> r.value <= obs[j].siteNo)
      && (r.Some? ==> exists j :: 0 <= j < |obs| && PeriodOf(f, obs[j].date) == k && obs[j].siteNo == r.value)
  {
    var m := Members(obs, f, k);
    var r := MinSite(m);
    MembersSpec(obs, f, k);
    if r.None? {
      forall j | 0 <= j < |obs| ensures PeriodOf(f, obs[j].date) != k {
        assert obs[j] in obs;
      }
    } else {
      forall j | 0 <= j < |obs| && PeriodOf(f, obs[j].date) == k ensures r.value <= obs[j].siteNo {
        assert obs[j] in m;
        var t :| 0 <= t < |m| && m[t] == obs[j];
      }
      var t :| 0 <= t < |m| && m[t].siteNo == r.value;
      assert m[t] in obs;
      var j :| 0 <= j < |obs| && obs[j] == m[t];
      assert PeriodOf(f, obs[j].date) == k;
    }
  }

  // ---------------------------------------------------------------------------
  // The periods partition the record

  /** The number of observations grouped into periods `lo` to `lo + n - 1`. */
  function GroupSizes(obs: seq<Observation>, f: Frequency, lo: int, n: nat): nat
    decreases n
  {
    if n == 0 then 0 else |Members(obs, f, lo)| + GroupSizes(obs, f, lo + 1, n - 1)
  }

  lemma {:induction false} GroupSizesCons(o: Observation, rest: seq<Observation>, f: Frequency, lo: int, n: nat)
    ensures GroupSizes([o] + rest, f, lo, n)
      == GroupSizes(rest, f, lo, n) + (if lo <= PeriodOf(f, o.date) < lo + n then 1 else 0)
    decreases n
  {
    if n > 0 {
      GroupSizesCons(o, rest, f, lo + 1, n - 1);
      assert ([o] + rest)[1..] == rest;
    }
  }

  lemma {:induction false} GroupSizesTotal(obs: seq<Observation>, f: Frequency, lo: int, n: nat)
    requires forall j :: 0 <= j < |obs| ==> lo <= PeriodOf(f, obs[j].date) < lo + n
    ensures GroupSizes(obs, f, lo, n) == |obs|
  {
    if obs == [] {
      GroupSizesEmpty(f, lo, n);
    } else {
      GroupSizesTotal(obs[1..], f, lo, n);
      assert obs == [obs[0]] + obs[1..];
      GroupSizesCons(obs[0], obs[1..], f, lo, n);
    }
  }

  lemma {:induction false} GroupSizesEmpty(f: Frequency, lo: int, n: nat)
    ensures GroupSizes([], f, lo, n) == 0
    decreases n
  {
    if n > 0 {
      GroupSizesEmpty(f, lo + 1, n - 1);
    }
  }

  /** Every observation is counted in exactly one row of the table: the
      group sizes over the table's periods add up to the whole record. */
  lemma TablePartitionsRecord(obs: seq<Observation>, f: Frequency)
    requires obs != []
    ensures var ks := Span(obs, f); GroupSizes(obs, f, ks[0], |ks|) == |obs|
  {
    var ks := Span(obs, f);
    assert ks[|ks| - 1] == ks[0] + (|ks| - 1);
    GroupSizesTotal(obs, f, ks[0], |ks|);
  }
}
