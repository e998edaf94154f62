/** The temporal half of pairing a predicted perimeter with reference
    perimeters: `get_nearest` picks, out of a reference table, the rows whose
    date is nearest (in seconds) to one predicted timestamp, then gates the
    choice on the day-of-month difference.
 */
module Nearest {
  import opened Results

  /** A `datetime` reduced to what `get_nearest` reads from it: seconds since
      the epoch (`.timestamp()`) and the day of the month (`.day`). */
  datatype Timestamp = Timestamp(epochSeconds: int, day: int)

  /** One reference row: its index and its DATE_CUR_STAMP value. */
  datatype Record = Record(index: int, stamp: Timestamp)

  datatype NearestError =
    | ExcessiveDayRange  // the tolerance is 8 days or more
    | EmptyDataset       // `min` of an empty dictionary raises
    | NoDateInRange      // the nearest date fails the day-of-month gate

  /** The tolerance at which a failed gate yields `None` instead of failing. */
  const LEGACY_DAYRANGE: int := 7
  /** Tolerances from this value up are refused outright. */
  const DAYRANGE_LIMIT: int := 8

  function Abs(x: int): nat {
    if x < 0 then -x else x
  }

  function Distance(a: Timestamp, b: Timestamp): nat {
    Abs(a.epochSeconds - b.epochSeconds)
  }

  function Stamps(rows: seq<Record>): (dates: seq<Timestamp>)
    ensures |dates| == |rows|
    ensures forall i :: 0 <= i < |rows| ==> dates[i] == rows[i].stamp
  {
    seq(|rows|, i requires 0 <= i < |rows| => rows[i].stamp)
  }

  /** The last position whose date lies at distance `k` from `q`, or -1. */
  function LastAtDistance(dates: seq<Timestamp>, q: Timestamp, k: nat): (i: int)
    ensures -1 <= i < |dates|
    ensures i >= 0 ==> Distance(q, dates[i]) == k
    ensures i >= 0 ==> forall j :: i < j < |dates| ==> Distance(q, dates[j]) != k
    ensures i == -1 ==> forall j :: 0 <= j < |dates| ==> Distance(q, dates[j]) != k
    decreases |dates|
  {
    if |dates| == 0 then -1
    else if Distance(q, dates[|dates| - 1]) == k then |dates| - 1
    else LastAtDistance(dates[..|dates| - 1], q, k)
  }

  /** The dictionary `{abs(q - d): d for d in dates}`. It is filled in order,
      so a later date overwrites an earlier one at the same distance. */
  function ClosDict(dates: seq<Timestamp>, q: Timestamp): (m: map<nat, Timestamp>)
    ensures forall k :: k in m <==> LastAtDistance(dates, q, k) >= 0
    ensures forall k :: k in m ==> m[k] == dates[LastAtDistance(dates, q, k)]
    decreases |dates|
  {
    if |dates| == 0 then map[]
    else
      var d := dates[|dates| - 1];
      ClosDict(dates[..|dates| - 1], q)[Distance(q, d) := d]
  }

  /** The smallest distance from `q` to any of `dates`. */
  function MinDistance(dates: seq<Timestamp>, q: Timestamp): (d: nat)
    requires |dates| > 0
    ensures forall j :: 0 <= j < |dates| ==> d <= Distance(q, dates[j])
    ensures exists j :: 0 <= j < |dates| && Distance(q, dates[j]) == d
    decreases |dates|
  {
    if |dates| == 1 then Distance(q, dates[0])
    else
      var rest := MinDistance(dates[1..], q);
      var here := Distance(q, dates[0]);
      if here <= rest then here else rest
  }

  /** `min(clos_dict.keys())` is the smallest distance. */
  lemma MinKeyIsMinDistance(dates: seq<Timestamp>, q: Timestamp)
    requires |dates| > 0
    ensures MinDistance(dates, q) in ClosDict(dates, q)
    ensures forall k :: k in ClosDict(dates, q) ==> MinDistance(dates, q) <= k
  {
    var m := ClosDict(dates, q);
    var d := MinDistance(dates, q);
    assert LastAtDistance(dates, q, d) >= 0;
    forall k | k in m ensures d <= k {
      assert Distance(q, dates[LastAtDistance(dates, q, k)]) == k;
    }
  }

  /** Position `i` holds a nearest date, and every later date is strictly
      farther: the date a left-to-right dictionary build keeps. */
  predicate IsLastNearest(dates: seq<Timestamp>, q: Timestamp, i: int) {
    && 0 <= i < |dates|
    && (forall j :: 0 <= j < |dates| ==> Distance(q, dates[i]) <= Distance(q, dates[j]))
    && (forall j :: i < j < |dates| ==> Distance(q, dates[i]) < Distance(q, dates[j]))
  }

  /** `res` in `get_nearest`: the dictionary's value at the smallest key. */
  function NearestDate(dates: seq<Timestamp>, q: Timestamp): (res: Timestamp)
    requires |dates| > 0
    ensures res in dates
    ensures forall j :: 0 <= j < |dates| ==> Distance(q, res) <= Distance(q, dates[j])
    ensures exists i :: IsLastNearest(dates, q, i) && dates[i] == res
  {
    MinKeyIsMinDistance(dates, q);
    var d := MinDistance(dates, q);
    var i := LastAtDistance(dates, q, d);
    assert IsLastNearest(dates, q, i);
    ClosDict(dates, q)[d]
  }

  /** At most one position is the last nearest one. */
  lemma LastNearestUnique(dates: seq<Timestamp>, q: Timestamp, i: int, j: int)
    requires IsLastNearest(dates, q, i) && IsLastNearest(dates, q, j)
    ensures i == j
  {
    var di, dj := Distance(q, dates[i]), Distance(q, dates[j]);
    assert di <= dj && dj <= di;
  }

  /** Ties on distance go to the date appearing last: whenever position `i`
      is the last nearest one, `get_nearest` selects exactly `dates[i]`. */
  lemma NearestIsLastMinimal(dates: seq<Timestamp>, q: Timestamp, i: int)
    requires IsLastNearest(dates, q, i)
    ensures NearestDate(dates, q) == dates[i]
  {
    var res := NearestDate(dates, q);
    var i' :| IsLastNearest(dates, q, i') && dates[i'] == res;
    LastNearestUnique(dates, q, i, i');
  }

  /** A single left-to-right scan that reaches the same date as the
      dictionary build: a later date at an equal distance replaces the
      current best. */
  method ScanNearest(dates: seq<Timestamp>, q: Timestamp) returns (best: nat)
    requires |dates| > 0
    ensures IsLastNearest(dates, q, best)
    ensures dates[best] == NearestDate(dates, q)
  {
    best := 0;
    var i := 1;
    while i < |dates|
      invariant 1 <= i <= |dates|
      invariant best < i
      invariant forall j :: 0 <= j < i ==> Distance(q, dates[best]) <= Distance(q, dates[j])
      invariant forall j :: best < j < i ==> Distance(q, dates[best]) < Distance(q, dates[j])
    {
      if Distance(q, dates[i]) <= Distance(q, dates[best]) {
        best := i;
      }
      i := i + 1;
    }
    NearestIsLastMinimal(dates, q, best);
  }

  /** `dataset[dataset['DATE_CUR_STAMP'] == t]`: the rows stamped `t`, in
      their original order, duplicates kept. */
  function RowsAt(rows: seq<Record>, t: Timestamp): (r: seq<Record>)
    ensures forall x :: x in r <==> x in rows && x.stamp == t
    ensures |r| <= |rows|
    decreases |rows|
  {
    if |rows| == 0 then []
    else
      var last := rows[|rows| - 1];
      RowsAt(rows[..|rows| - 1], t) + (if last.stamp == t then [last] else [])
  }

  /** The filter keeps the original order: it distributes over `+`. */
  lemma {:induction false} RowsAtConcat(a: seq<Record>, b: seq<Record>, t: Timestamp)
    ensures RowsAt(a + b, t) == RowsAt(a, t) + RowsAt(b, t)
    decreases |b|
  {
    if |b| == 0 {
      assert a + b == a;
    } else {
      assert (a + b)[..|a + b| - 1] == a + b[..|b| - 1];
      RowsAtConcat(a, b[..|b| - 1], t);
    }
  }

  /** The rows stamped with the nearest date form a non-empty block of
      equally near rows, and no row of the table is nearer. */
  lemma NearestRowsFacts(dataset: seq<Record>, q: Timestamp)
    requires |dataset| > 0
    ensures var rows := RowsAt(dataset, NearestDate(Stamps(dataset), q));
            && |rows| > 0
            && rows[0].stamp == NearestDate(Stamps(dataset), q)
            && (forall y :: y in dataset ==> Distance(q, rows[0].stamp) <= Distance(q, y.stamp))
  {
    var dates := Stamps(dataset);
    var res := NearestDate(dates, q);
    var rows := RowsAt(dataset, res);
    var i :| 0 <= i < |dates| && dates[i] == res;
    assert dataset[i] in dataset && dataset[i].stamp == res;
    assert dataset[i] in rows;
    assert rows[0] in rows;
    NearestOverRows(dataset, q);
  }

  /** No row of the table is nearer than the nearest date. */
  lemma NearestOverRows(dataset: seq<Record>, q: Timestamp)
    requires |dataset| > 0
    ensures forall y :: y in dataset ==> Distance(q, NearestDate(Stamps(dataset), q)) <= Distance(q, y.stamp)
  {
    var dates := Stamps(dataset);
    var res := NearestDate(dates, q);
    forall y | y in dataset ensures Distance(q, res) <= Distance(q, y.stamp) {
      var j :| 0 <= j < |dataset| && dataset[j] == y;
      assert dates[j] == y.stamp;
    }
  }

  /** `get_nearest(dataset, timestamp, dayrange)`.

      `Ok(None)` is the function's `None` return; every `Err` is an exception
      (`AssertionError`, or `ValueError` from `min` of an empty dictionary). */
  function GetNearest(dataset: seq<Record>, q: Timestamp, dayrange: int)
    : (r: Result<Option<seq<Record>>, NearestError>)
    ensures r == Err(ExcessiveDayRange) <==> dayrange >= DAYRANGE_LIMIT
    ensures r == Err(EmptyDataset) <==> dayrange < DAYRANGE_LIMIT && |dataset| == 0
    ensures r.Ok? && r.value.Some? <==>
              && dayrange < DAYRANGE_LIMIT
              && |dataset| > 0
              && Abs(q.day - NearestDate(Stamps(dataset), q).day) <= dayrange
    ensures r.Ok? && r.value.Some? ==> r.value.value == RowsAt(dataset, NearestDate(Stamps(dataset), q))
    ensures r.Ok? && r.value.Some? ==>
              var rows := r.value.value;
              && |rows| > 0
              && (forall x :: x in rows ==> x in dataset && x.stamp == rows[0].stamp)
              && (forall x :: x in dataset && x.stamp == rows[0].stamp ==> x in rows)
              && (forall y :: y in dataset ==> Distance(q, rows[0].stamp) <= Distance(q, y.stamp))
              && Abs(q.day - rows[0].stamp.day) <= dayrange
    ensures r == Ok(None) <==>
              && dayrange == LEGACY_DAYRANGE
              && |dataset| > 0
              && Abs(q.day - NearestDate(Stamps(dataset), q).day) > dayrange
    ensures r == Err(NoDateInRange) <==>
              && dayrange < DAYRANGE_LIMIT
              && dayrange != LEGACY_DAYRANGE
              && |dataset| > 0
              && Abs(q.day - NearestDate(Stamps(dataset), q).day) > dayrange
  {
    if dayrange >= DAYRANGE_LIMIT then Err(ExcessiveDayRange)
    else if |dataset| == 0 then Err(EmptyDataset)
    else
      var dates := Stamps(dataset);
      var res := NearestDate(dates, q);
      var gap := Abs(q.day - res.day);
      if gap > dayrange && dayrange == LEGACY_DAYRANGE then Ok(None)
      else if gap > dayrange then Err(NoDateInRange)
      else
        var rows := RowsAt(dataset, res);
        NearestRowsFacts(dataset, q);
        Ok(Some(rows))
  }
}
