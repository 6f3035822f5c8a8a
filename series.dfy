/** A station's daily discharge record and the clip to an analysis window
    (program_10.py, ClipData). */
module Series {
  import opened Optional

  /** A calendar date. Dates compare in (year, month, day) order. */
  datatype Date = Date(year: int, month: int, day: int)

  predicate LeapYear(y: int)
  {
    y % 4 == 0 && (y % 100 != 0 || y % 400 == 0)
  }

  function DaysInMonth(y: int, m: int): int
  {
    if m == 2 then (if LeapYear(y) then 29 else 28)
    else if m == 4 || m == 6 || m == 9 || m == 11 then 30
    else 31
  }

  predicate ValidDate(d: Date)
  {
    1 <= d.month <= 12 && 1 <= d.day <= DaysInMonth(d.year, d.month)
  }

  predicate DateLe(a: Date, b: Date)
  {
    a.year < b.year
    || (a.year == b.year && a.month < b.month)
    || (a.year == b.year && a.month == b.month && a.day <= b.day)
  }

  predicate DateLt(a: Date, b: Date)
  {
    DateLe(a, b) && a != b
  }

  /** One row of the record: the date, the station's site number and the
      daily mean discharge, absent when the gauge reported none. */
  datatype Observation = Observation(date: Date, siteNo: int, discharge: Option<real>)

  function Discharges(obs: seq<Observation>): (q: seq<Option<real>>)
    ensures |q| == |obs|
    ensures forall i :: 0 <= i < |obs| ==> q[i] == obs[i].discharge
  {
    seq(|obs|, i requires 0 <= i < |obs| => obs[i].discharge)
  }

  /** Dates strictly increase along the record (an input invariant the
      loader provides). */
  ghost predicate Chronological(obs: seq<Observation>)
  {
    forall i, j :: 0 <= i < j < |obs| ==> DateLt(obs[i].date, obs[j].date)
  }

  predicate InWindow(d: Date, start: Date, end: Date)
  {
    DateLe(start, d) && DateLe(d, end)
  }

  /** The observations dated within `[start, end]`, in record order. */
  function ClipRows(obs: seq<Observation>, start: Date, end: Date): (r: seq<Observation>)
    ensures |r| <= |obs|
    ensures forall o :: o in r <==> o in obs && InWindow(o.date, start, end)
  {
    if obs == [] then []
    else
      var rest := ClipRows(obs[1..], start, end);
      assert forall o :: o in obs <==> o == obs[0] || o in obs[1..];
      if InWindow(obs[0].date, start, end) then [obs[0]] + rest else rest
  }

  /** The record restricted to `[start, end]` (both ends included) and the
      number of absent discharges left in it. */
  function ClipData(obs: seq<Observation>, start: Date, end: Date): (r: (seq<Observation>, nat))
    ensures forall o :: o in r.0 <==> o in obs && InWindow(o.date, start, end)
    ensures r.1 <= |r.0|
    ensures r.1 + |Present(Discharges(r.0))| == |r.0|
  {
    var clipped := ClipRows(obs, start, end);
    AbsentPlusPresent(Discharges(clipped));
    (clipped, CountAbsent(Discharges(clipped)))
  }

  // ---------------------------------------------------------------------------
  // Properties of the clip

  /** Clipping keeps record order: the clipped rows are a subsequence. */
  ghost predicate Subsequence(a: seq<Observation>, b: seq<Observation>)
    decreases |b|
  {
    if a == [] then true
    else if b == [] then false
    else if a[0] == b[0] then Subsequence(a[1..], b[1..])
    else Subsequence(a, b[1..])
  }

  lemma {:induction false} ClipIsSubsequence(obs: seq<Observation>, start: Date, end: Date)
    ensures Subsequence(ClipData(obs, start, end).0, obs)
  {
    if obs != [] {
      ClipIsSubsequence(obs[1..], start, end);
      var rest := ClipRows(obs[1..], start, end);
      if InWindow(obs[0].date, start, end) {
        assert ([obs[0]] + rest)[1..] == rest;
      } else if rest != [] {
        SubsequenceSkip(rest, obs);
      }
    }
  }

  lemma {:induction false} SubsequenceSkip(a: seq<Observation>, b: seq<Observation>)
    requires b != [] && Subsequence(a, b[1..])
    ensures Subsequence(a, b)
    decreases |b|, 0
  {
    if a != [] && a[0] == b[0] {
      SubsequenceTail(a, b[1..]);
    }
  }

  lemma {:induction false} SubsequenceTail(a: seq<Observation>, b: seq<Observation>)
    requires a != [] && Subsequence(a, b)
    ensures Subsequence(a[1..], b)
    decreases |b|, 1
  {
    if a[0] != b[0] {
      SubsequenceTail(a, b[1..]);
      SubsequenceSkip(a[1..], b);
    } else if a[1..] != [] {
      SubsequenceSkip(a[1..], b);
    }
  }

  /** Clipping an already clipped record changes nothing. */
  lemma {:induction false} ClipIdempotent(obs: seq<Observation>, start: Date, end: Date)
    ensures ClipData(ClipData(obs, start, end).0, start, end) == ClipData(obs, start, end)
  {
    ClipRowsIdempotent(obs, start, end);
  }

  lemma {:induction false} ClipRowsIdempotent(obs: seq<Observation>, start: Date, end: Date)
    ensures ClipRows(ClipRows(obs, start, end), start, end) == ClipRows(obs, start, end)
  {
    if obs != [] {
      ClipRowsIdempotent(obs[1..], start, end);
      var rest := ClipRows(obs[1..], start, end);
      if InWindow(obs[0].date, start, end) {
        assert ([obs[0]] + rest)[1..] == rest;
      }
    }
  }

  /** On a chronological record, clipping by date cuts out one contiguous
      run of rows, as label slicing does on a sorted date index. */
  lemma ClipIsContiguous(obs: seq<Observation>, start: Date, end: Date)
    requires Chronological(obs)
    ensures exists i, j :: 0 <= i <= j <= |obs| && ClipData(obs, start, end).0 == obs[i..j]
  {
    var i, j := ClipBounds(obs, start, end);
  }

  lemma {:induction false} ClipBounds(obs: seq<Observation>, start: Date, end: Date) returns (i: nat, j: nat)
    requires Chronological(obs)
    ensures i <= j <= |obs| && ClipRows(obs, start, end) == obs[i..j]
  {
    if obs == [] {
      i, j := 0, 0;
    } else if !DateLe(start, obs[0].date) {
      ChronologicalTail(obs);
      i, j := ClipBounds(obs[1..], start, end);
      i, j := i + 1, j + 1;
    } else {
      j := ClipPrefix(obs, start, end);
      i := 0;
    }
  }

  lemma ChronologicalTail(obs: seq<Observation>)
    requires obs != [] && Chronological(obs)
    ensures Chronological(obs[1..])
  {
    forall i, j | 0 <= i < j < |obs[1..]| ensures DateLt(obs[1..][i].date, obs[1..][j].date) {
      assert obs[1..][i] == obs[i + 1] && obs[1..][j] == obs[j + 1];
    }
  }

  lemma DateLeTrans(a: Date, b: Date, c: Date)
    requires DateLe(a, b) && DateLe(b, c)
    ensures DateLe(a, c)
  {
  }

  /** When the record starts inside the window, the clip is a prefix. */
  lemma {:induction false} ClipPrefix(obs: seq<Observation>, start: Date, end: Date) returns (j: nat)
    requires Chronological(obs)
    requires forall k :: 0 <= k < |obs| ==> DateLe(start, obs[k].date)
    ensures j <= |obs| && ClipRows(obs, start, end) == obs[..j]
  {
    if obs == [] {
      j := 0;
    } else if DateLe(obs[0].date, end) {
      ChronologicalTail(obs);
      j := ClipPrefix(obs[1..], start, end);
      assert [obs[0]] + obs[1..][..j] == obs[..j + 1];
      j := j + 1;
    } else {
      forall k | 0 <= k < |obs| ensures !DateLe(obs[k].date, end) {
        if k > 0 && DateLe(obs[k].date, end) {
          assert DateLt(obs[0].date, obs[k].date);
          DateLeTrans(obs[0].date, obs[k].date, end);
        }
      }
      ClipNone(obs, start, end);
      j := 0;
    }
  }

  lemma {:induction false} ClipNone(obs: seq<Observation>, start: Date, end: Date)
    requires forall k :: 0 <= k < |obs| ==> !InWindow(obs[k].date, start, end)
    ensures ClipRows(obs, start, end) == []
  {
    if obs != [] {
      ClipNone(obs[1..], start, end);
    }
  }
}
