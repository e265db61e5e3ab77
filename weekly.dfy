/** The trailing-week trip filter used twice, with the same mask, by the
    passenger app when it prices a booking (passenger_app.py:80-93) and by
    the driver dashboard (driver_app.py:72-94): the trips of one driver
    whose `created_at` parses and lies in `[now - 7 days, now]`, both ends
    included. */
module Weekly {
  import opened Records

  /** Seven days, in the microseconds `Instant` counts. */
  const Week: int := 7 * 24 * 60 * 60 * 1000000

  /** The mask for one trip row. A row without the field, or whose
      `created_at` does not parse, is never selected. */
  predicate InWeek(trip: Record, driver: string, now: Instant)
  {
    && "driver_username" in trip && trip["driver_username"] == Str(driver)
    && "created_at" in trip && trip["created_at"].Stamp?
    && now - Week <= trip["created_at"].t <= now
  }

  /** The rows the mask selects, in history order. */
  function WeekTrips(history: seq<Record>, driver: string, now: Instant): (week: seq<Record>)
    ensures |week| <= |history|
    ensures forall r :: r in week ==> InWeek(r, driver, now)
    ensures forall r :: multiset(week)[r] == if InWeek(r, driver, now) then multiset(history)[r] else 0
  {
    if history == [] then []
    else
      var last := history[|history| - 1];
      var init := history[..|history| - 1];
      assert history == init + [last];
      WeekTrips(init, driver, now) + (if InWeek(last, driver, now) then [last] else [])
  }

  /** pandas' `column in df.columns` for a frame built from a list of
      dictionaries: some row has the key. */
  predicate HasColumn(rows: seq<Record>, column: string)
  {
    exists r :: r in rows && column in r
  }

  /** A history in which no row has a needed column selects nothing. */
  lemma NoColumnNoWeek(history: seq<Record>, driver: string, now: Instant)
    requires !HasColumn(history, "created_at") || !HasColumn(history, "driver_username")
    ensures WeekTrips(history, driver, now) == []
  {
  }

  /** `weekly_trips`, as both apps compute it: zero unless the history is
      non-empty and has both columns, otherwise the size of the mask. The
      guard changes nothing: the count is always the number of rows the
      mask selects. */
  function WeeklyTripCount(history: seq<Record>, driver: string, now: Instant): (n: nat)
    ensures n == |WeekTrips(history, driver, now)|
    ensures n <= |history|
  {
    if history != [] && HasColumn(history, "created_at") && HasColumn(history, "driver_username")
    then |WeekTrips(history, driver, now)|
    else
      NoColumnNoWeek(history, driver, now);
      0
  }

  /** A trip added to the history counts toward the driver's week exactly
      when the mask selects it. */
  lemma WeekTripsAppend(history: seq<Record>, trip: Record, driver: string, now: Instant)
    ensures WeekTrips(history + [trip], driver, now)
         == WeekTrips(history, driver, now) + (if InWeek(trip, driver, now) then [trip] else [])
  {
    assert (history + [trip])[..|history + [trip]| - 1] == history;
  }

  /** Every selected row belongs to the driver and to the window, and every
      history row that does is selected. */
  lemma WeekTripsExact(history: seq<Record>, driver: string, now: Instant, r: Record)
    ensures r in WeekTrips(history, driver, now) <==> (r in history && InWeek(r, driver, now))
  {
    var week := WeekTrips(history, driver, now);
    assert r in week <==> multiset(week)[r] > 0;
    assert r in history <==> multiset(history)[r] > 0;
  }

  /** The numeric value pandas sums for one cell: integers and floats
      count, a missing or null cell is skipped. */
  function Amount(v: Value): real
  {
    match v
    case Int(i) => i as real
    case Num(x) => x
    case _ => 0.0
  }

  /** `rows[column].sum()`: a column no row carries sums to zero, and
      non-negative cells give a non-negative total. */
  function ColumnTotal(rows: seq<Record>, column: string): (total: real)
    ensures !HasColumn(rows, column) ==> total == 0.0
    ensures (forall r :: r in rows && column in r ==> Amount(r[column]) >= 0.0) ==> total >= 0.0
  {
    if rows == [] then 0.0
    else
      var last := rows[|rows| - 1];
      var init := rows[..|rows| - 1];
      assert last in rows;
      assert forall r :: r in init ==> r in rows;
      ColumnTotal(init, column) + (if column in last then Amount(last[column]) else 0.0)
  }

  lemma {:induction false} ColumnTotalConcat(a: seq<Record>, b: seq<Record>, column: string)
    ensures ColumnTotal(a + b, column) == ColumnTotal(a, column) + ColumnTotal(b, column)
  {
    if b == [] {
      assert a + b == a;
    } else {
      assert (a + b)[..|a + b| - 1] == a + b[..|b| - 1];
      ColumnTotalConcat(a, b[..|b| - 1], column);
    }
  }

  /** Rows in which two columns add up to a third add up the same way in
      total. */
  lemma {:induction false} ColumnTotalsAddUp(rows: seq<Record>, a: string, b: string, sum: string)
    requires forall r :: r in rows ==>
      (if a in r then Amount(r[a]) else 0.0) + (if b in r then Amount(r[b]) else 0.0)
        == (if sum in r then Amount(r[sum]) else 0.0)
    ensures ColumnTotal(rows, a) + ColumnTotal(rows, b) == ColumnTotal(rows, sum)
  {
    if rows != [] {
      assert rows[|rows| - 1] in rows;
      assert forall r :: r in rows[..|rows| - 1] ==> r in rows;
      ColumnTotalsAddUp(rows[..|rows| - 1], a, b, sum);
    }
  }
}
