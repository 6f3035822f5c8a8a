/** Long-term averages of the statistics tables (program_10.py,
    GetAnnualAverages and GetMonthlyAverages): the mean of every column of
    the annual table, and for every month of the year the mean of that
    month's rows of the monthly table. Column means skip undefined entries. */
module Averages {
  import opened Optional
  import opened Numeric
  import opened Series
  import opened Metrics
  import opened Periods

  /** A column mean: absent when no entry is defined, and otherwise a value
      between the smallest and the largest defined entry. */
  ghost predicate ColumnMean(a: Option<real>, col: seq<Option<real>>)
  {
    (a.None? <==> Present(col) == [])
    && (a.Some? ==> Present(col) != [] && MinOf(Present(col)) <= a.value <= MaxOf(Present(col)))
  }

  function AsReal(n: Option<int>): Option<real>
  {
    if n.Some? then Some(n.value as real) else None
  }

  /** The mean of every column of the annual table, site number included. */
  datatype AnnualAverages = AnnualAverages(
    siteNo: Option<real>,
    meanFlow: Option<real>,
    peakFlow: Option<real>,
    medianFlow: Option<real>,
    tqmean: Option<real>,
    rbIndex: Option<real>,
    sevenQ: Option<real>,
    exceed3xMedian: Option<real>)

  /** The columns of the annual table. */
  datatype AnnualColumn = SiteCol | MeanFlowCol | PeakFlowCol | MedianFlowCol | TqmeanCol | RBIndexCol | SevenQCol | ExceedCol

  /** The entry of `r` in column `c`, as a number. */
  function AnnualEntry(r: AnnualRow, c: AnnualColumn): Option<real>
  {
    match c
    case SiteCol => AsReal(r.siteNo)
    case MeanFlowCol => r.meanFlow
    case PeakFlowCol => r.peakFlow
    case MedianFlowCol => r.medianFlow
    case TqmeanCol => r.tqmean
    case RBIndexCol => r.rbIndex
    case SevenQCol => r.sevenQ
    case ExceedCol => Some(r.exceed3xMedian as real)
  }

  function Column(rows: seq<AnnualRow>, c: AnnualColumn): (col: seq<Option<real>>)
    ensures |col| == |rows|
    ensures forall i :: 0 <= i < |rows| ==> col[i] == AnnualEntry(rows[i], c)
  {
    seq(|rows|, i requires 0 <= i < |rows| => AnnualEntry(rows[i], c))
  }

  /** The average of column `c`. */
  function AverageOf(a: AnnualAverages, c: AnnualColumn): Option<real>
  {
    match c
    case SiteCol => a.siteNo
    case MeanFlowCol => a.meanFlow
    case PeakFlowCol => a.peakFlow
    case MedianFlowCol => a.medianFlow
    case TqmeanCol => a.tqmean
    case RBIndexCol => a.rbIndex
    case SevenQCol => a.sevenQ
    case ExceedCol => a.exceed3xMedian
  }

  /** The record holding `f(c)` for every column `c`. */
  function Tabulate(f: AnnualColumn -> Option<real>): AnnualAverages
  {
    AnnualAverages(f(SiteCol), f(MeanFlowCol), f(PeakFlowCol), f(MedianFlowCol),
      f(TqmeanCol), f(RBIndexCol), f(SevenQCol), f(ExceedCol))
  }

  lemma TabulateAt(f: AnnualColumn -> Option<real>, c: AnnualColumn)
    ensures AverageOf(Tabulate(f), c) == f(c)
  {
  }

  /** The mean over the water years of every column of the annual table. */
  function GetAnnualAverages(rows: seq<AnnualRow>): (avg: AnnualAverages)
    ensures forall c :: ColumnMean(AverageOf(avg, c), Column(rows, c))
  {
    var f := c => MeanSkipNa(Column(rows, c));
    forall c ensures ColumnMean(AverageOf(Tabulate(f), c), Column(rows, c)) {
      TabulateAt(f, c);
      MeanSkipNaBounds(Column(rows, c));
    }
    Tabulate(f)
  }

  /** A column whose defined entries all equal `x` averages to `x`. */
  lemma MeanOfConstant(col: seq<Option<real>>, x: real)
    requires Present(col) != []
    requires forall i :: 0 <= i < |col| && col[i].Some? ==> col[i].value == x
    ensures MeanSkipNa(col) == Some(x)
  {
    var v := Present(col);
    PresentMembers(col);
    forall i | 0 <= i < |v| ensures v[i] == x {
      var j :| 0 <= j < |col| && col[j] == Some(v[i]);
    }
    MeanBetween(v, x, x);
  }

  /** The averages of a one-year table are that year's values. */
  lemma AnnualAveragesOfOneYear(r: AnnualRow, c: AnnualColumn)
    ensures AverageOf(GetAnnualAverages([r]), c) == AnnualEntry(r, c)
  {
    var col := Column([r], c);
    if col[0].Some? {
      assert Present(col) == [col[0].value];
      MeanOfConstant(col, col[0].value);
    } else {
      assert Present(col) == [];
    }
  }

  /** The count of high-flow days is defined in every year, so its average
      is defined whenever the table has a row. */
  lemma ExceedAverageDefined(rows: seq<AnnualRow>)
    requires rows != []
    ensures GetAnnualAverages(rows).exceed3xMedian.Some?
    ensures GetAnnualAverages(rows).exceed3xMedian.value >= 0.0
  {
    var col := Column(rows, ExceedCol);
    PresentMembers(col);
    assert col[0].value in Present(col);
    PresentAtLeast(col, 0.0);
    assert MinOf(Present(col)) in Present(col);
  }

  // ---------------------------------------------------------------------------
  // Monthly averages

  /** Every twelfth entry of `q`, starting with entry `off`. */
  function Stride(q: seq<Option<real>>, off: nat): seq<Option<real>>
    decreases |q| - off
  {
    if off >= |q| then []
    else [q[off]] + Stride(q, off + 12)
  }

  /** The stride from `off` holds entries `off`, `off + 12`, `off + 24`, ...
      up to the end of `q`, and nothing else. */
  lemma {:induction false} StrideSpec(q: seq<Option<real>>, off: nat)
    ensures |Stride(q, off)| == if off < |q| then (|q| - off + 11) / 12 else 0
    ensures forall j :: 0 <= j < |Stride(q, off)| ==> off + 12 * j < |q| && Stride(q, off)[j] == q[off + 12 * j]
    decreases |q| - off
  {
    if off < |q| {
      StrideSpec(q, off + 12);
      var r := Stride(q, off);
      forall j | 0 < j < |r| ensures off + 12 * j < |q| && r[j] == q[off + 12 * j] {
        assert r[j] == Stride(q, off + 12)[j - 1];
        assert off + 12 * j == off + 12 + 12 * (j - 1);
      }
    }
  }

  /** For each row of the result, the position in the monthly table of the
      first row that is averaged into it. */
  const MonthOffsets: seq<nat> := [3, 4, 5, 6, 7, 8, 9, 10, 11, 0, 1, 2]

  /** The monthly table's columns, in table order: site number, mean flow,
      Tqmean and R-B index. */
  function MonthlyColumn(table: seq<MonthlyRow>, c: nat): (col: seq<Option<real>>)
    requires c < 4
  {
    seq(|table|, i requires 0 <= i < |table| =>
      if c == 0 then AsReal(table[i].siteNo)
      else if c == 1 then table[i].meanFlow
      else if c == 2 then table[i].tqmean
      else table[i].rbIndex)
  }

  /** The entry at row `i`, column `c` of the monthly averages: the site
      number column always averages the rows from the first one on; every
      other column averages the rows from `MonthOffsets[i]` on. */
  function MonthlyAverage(table: seq<MonthlyRow>, i: nat, c: nat): Option<real>
    requires i < 12 && c < 4
  {
    MeanSkipNa(Stride(MonthlyColumn(table, c), if c == 0 then 0 else MonthOffsets[i]))
  }

  /** Each monthly average is a column mean of the rows it takes. */
  lemma MonthlyAverageIsMean(table: seq<MonthlyRow>, i: nat, c: nat)
    requires i < 12 && c < 4
    ensures ColumnMean(MonthlyAverage(table, i, c),
      Stride(MonthlyColumn(table, c), if c == 0 then 0 else MonthOffsets[i]))
  {
    MeanSkipNaBounds(Stride(MonthlyColumn(table, c), if c == 0 then 0 else MonthOffsets[i]));
  }

  /** The twelve strides share out the rows of a column: entry `n` lies in
      the stride of exactly one result row, at position `n / 12`. */
  lemma StridesCoverColumn(q: seq<Option<real>>, n: nat)
    requires n < |q|
    ensures var i := (n + 9) % 12;
      MonthOffsets[i] == n % 12
      && n / 12 < |Stride(q, MonthOffsets[i])| && Stride(q, MonthOffsets[i])[n / 12] == q[n]
    ensures forall i :: 0 <= i < 12 && MonthOffsets[i] == n % 12 ==> i == (n + 9) % 12
  {
    var i := (n + 9) % 12;
    var off := n % 12;
    assert MonthOffsets[i] == off;
    assert n == off + 12 * (n / 12);
    StrideSpec(q, off);
  }

  /** The monthly averages as a 12-by-4 table, filled one row at a time. */
  method GetMonthlyAverages(table: seq<MonthlyRow>) returns (avg: array2<Option<real>>)
    ensures fresh(avg)
    ensures avg.Length0 == 12 && avg.Length1 == 4
    ensures forall i, c :: 0 <= i < 12 && 0 <= c < 4 ==> avg[i, c] == MonthlyAverage(table, i, c)
    ensures forall i :: 0 <= i < 12 ==> avg[i, 0] == avg[0, 0]
  {
    avg := new Option<real>[12, 4]((_, _) => Some(0.0));
    for i := 0 to 12
      invariant forall r, c :: 0 <= r < i && 0 <= c < 4 ==> avg[r, c] == MonthlyAverage(table, r, c)
    {
      avg[i, 0] := MonthlyAverage(table, i, 0);
      avg[i, 1] := MonthlyAverage(table, i, 1);
      avg[i, 2] := MonthlyAverage(table, i, 2);
      avg[i, 3] := MonthlyAverage(table, i, 3);
    }
  }

  /** Row `n` of a table that starts in October falls in calendar month
      `MonthNumber(n)`. */
  function MonthNumber(n: nat): int
  {
    (n + 9) % 12 + 1
  }

  lemma NextMonthNumber(d: Date, n: nat)
    requires d.month == MonthNumber(n)
    ensures NextMonth(d).month == MonthNumber(n + 1)
  {
  }

  /** In a table of consecutive months that starts in October, row `n` is
      the month `MonthNumber(n)` of the calendar. */
  lemma {:induction false} MonthOfRow(t: seq<MonthlyRow>, n: nat)
    requires ConsecutiveMonths(t) && t != [] && t[0].start.month == 10
    requires n < |t|
    ensures t[n].start.month == MonthNumber(n)
  {
    if n > 0 {
      MonthOfRow(t, n - 1);
      NextMonthNumber(t[n - 1].start, n - 1);
    }
  }

  /** Row `i` of the averages takes the rows of calendar month `i + 1`. */
  lemma OffsetMonth(i: nat, j: nat)
    requires i < 12
    ensures MonthNumber(MonthOffsets[i] + 12 * j) == i + 1
  {
    var n := MonthOffsets[i] + 12 * j;
    if i < 9 {
      assert n + 9 == i + 12 * (j + 1);
    } else {
      assert n + 9 == i + 12 * j;
    }
  }

  /** In a monthly table that starts in October (the first month of a water
      year: the earliest month key is 9 modulo 12), row `i` of the averages,
      for each column other than the site number, averages exactly the rows
      of calendar month `i + 1`. */
  lemma MonthlyAveragesFollowTheCalendar(obs: seq<Observation>, i: nat, j: nat)
    requires obs != [] && Span(obs, Month)[0] % 12 == 9
    requires i < 12 && MonthOffsets[i] + 12 * j < |Span(obs, Month)|
    ensures GetMonthlyStatistics(obs)[MonthOffsets[i] + 12 * j].start.month == i + 1
    ensures forall n :: 0 <= n < |Span(obs, Month)| && GetMonthlyStatistics(obs)[n].start.month == i + 1 ==>
      n % 12 == MonthOffsets[i]
  {
    var t := GetMonthlyStatistics(obs);
    MonthlyRowStart(obs, 0);
    MonthlyRowsAreMonths(obs);
    MonthOfRow(t, MonthOffsets[i] + 12 * j);
    OffsetMonth(i, j);
    forall n | 0 <= n < |t| && t[n].start.month == i + 1 ensures n % 12 == MonthOffsets[i] {
      MonthOfRow(t, n);
      MonthOfOffset(n);
    }
  }

  /** Row `n` is averaged into the result row of its calendar month. */
  lemma MonthOfOffset(n: nat)
    ensures MonthOffsets[MonthNumber(n) - 1] == n % 12
  {
  }
}
