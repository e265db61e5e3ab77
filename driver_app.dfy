/** The driver app (driver_app.py): registering a driver in the driver
    store, and the dashboard's trailing-week summary of a logged-in
    driver's trips, earnings and commission tier. */
module DriverApp {
  import opened Records
  import opened Pricing
  import opened Weekly
  import opened Booking

  /** The registration form. */
  datatype DriverForm = DriverForm(
    username: string, firstName: string, lastName: string, age: int,
    city: string, transportType: string)

  datatype RegistrationError = UsernameRequired

  /** The record stored for a new driver: found under the form's
      username, and available for trips. */
  function DriverRecord(form: DriverForm): (r: Record)
    ensures HasUsername(r, form.username)
    ensures FirstMatch([r], form.username) == Some(0)
    ensures "status" in r && r["status"] == Str("Available")
  {
    map[
      "username" := Str(form.username),
      "first_name" := Str(form.firstName),
      "last_name" := Str(form.lastName),
      "age" := Int(form.age),
      "city" := Str(form.city),
      "transport_type" := Str(form.transportType),
      "status" := Str("Available")
    ]
  }

  /** Submitting the form: an empty username is refused, anything else
      gives the driver's record, marked available. */
  function Registration(form: DriverForm): (r: Result<Record, RegistrationError>)
    ensures r.Err? <==> form.username == ""
    ensures r.Ok? ==> r.value == DriverRecord(form)
  {
    if form.username == "" then Err(UsernameRequired) else Ok(DriverRecord(form))
  }

  /** A registered driver is found under their username, available, with
      the form's details. */
  lemma DriverRecordFields(form: DriverForm)
    ensures HasUsername(DriverRecord(form), form.username)
    ensures DriverRecord(form)["status"] == Str("Available")
    ensures DriverRecord(form)["first_name"] == Str(form.firstName)
    ensures DriverRecord(form)["last_name"] == Str(form.lastName)
    ensures DriverRecord(form)["age"] == Int(form.age)
    ensures DriverRecord(form)["city"] == Str(form.city)
    ensures DriverRecord(form)["transport_type"] == Str(form.transportType)
    ensures DriverRecord(form).Keys ==
      {"username", "first_name", "last_name", "age", "city", "transport_type", "status"}
  {
  }

  /** Submitting the form against the driver store: on success the new
      record is appended, on error nothing changes. */
  method RegisterDriver(drivers: Store, form: DriverForm) returns (outcome: Result<Record, RegistrationError>)
    modifies drivers
    ensures outcome == Registration(form)
    ensures outcome.Err? ==> drivers.records == old(drivers.records)
    ensures outcome.Ok? ==> drivers.records == old(drivers.records) + [outcome.value]
  {
    if form.username == "" {
      return Err(UsernameRequired);
    }
    var driver := DriverRecord(form);
    drivers.Append(driver);
    return Ok(driver);
  }

  /** Registration does not check that the username is new: after
      registering a second driver under a taken username both records are
      stored, and an update of that username reaches only the earlier
      one. */
  lemma DuplicateUsernames(ds: seq<Record>, form: DriverForm, updates: Record)
    requires form.username != ""
    requires FirstMatch(ds, form.username).Some?
    ensures var after := ds + [DriverRecord(form)];
      && |after| == |ds| + 1
      && HasUsername(after[|ds|], form.username)
      && FirstMatch(after, form.username) == FirstMatch(ds, form.username)
      && UpdateFirst(after, form.username, updates)[|ds|] == DriverRecord(form)
  {
    var after := ds + [DriverRecord(form)];
    var i := FirstMatch(ds, form.username).value;
    assert after[i] == ds[i];
    assert forall j :: 0 <= j < i ==> after[j] == ds[j];
    assert FirstMatch(after, form.username) == Some(i) by {
      var m := FirstMatch(after, form.username);
      assert m.Some?;
    }
  }

  /** The app's session state: the driver whose dashboard is shown. */
  class Session {
    var loggedDriver: Option<string>

    constructor ()
      ensures loggedDriver == None
    {
      loggedDriver := None;
    }

    /** "Log in as this driver": no password, any listed username. */
    method LogIn(username: string)
      modifies this
      ensures loggedDriver == Some(username)
    {
      loggedDriver := Some(username);
    }
  }

  /** What the dashboard shows for a driver over the trailing week. */
  datatype WeeklySummary = WeeklySummary(
    trips: nat, driverEarnings: real, platformCommission: real, commissionPct: int)

  /** The dashboard's computation (driver_app.py:72-98): zeros unless the
      history is non-empty and has both columns; otherwise the size of the
      week and, where the column exists, the sums of earnings and
      commission; the tier from the trip count alone. */
  function DriverWeeklySummary(history: seq<Record>, driver: string, now: Instant): (s: WeeklySummary)
    ensures s.trips == WeeklyTripCount(history, driver, now) <= |history|
    ensures s.commissionPct == GetCommissionPct(s.trips)
  {
    if history != [] && HasColumn(history, "created_at") && HasColumn(history, "driver_username") then
      var week := WeekTrips(history, driver, now);
      var earnings := if HasColumn(history, "driver_earnings_xof")
                      then ColumnTotal(week, "driver_earnings_xof") else 0.0;
      var commission := if HasColumn(history, "platform_commission_xof")
                        then ColumnTotal(week, "platform_commission_xof") else 0.0;
      WeeklySummary(|week|, earnings, commission, GetCommissionPct(|week|))
    else
      WeeklySummary(0, 0.0, 0.0, GetCommissionPct(0))
  }

  /** The guards change nothing: the summary is the size of the driver's
      week, the two column totals over exactly those trips, and the tier of
      that count. */
  lemma SummaryIsWeekTotals(history: seq<Record>, driver: string, now: Instant)
    ensures var s := DriverWeeklySummary(history, driver, now);
      var week := WeekTrips(history, driver, now);
      && s.trips == |week| == WeeklyTripCount(history, driver, now)
      && s.driverEarnings == ColumnTotal(week, "driver_earnings_xof")
      && s.platformCommission == ColumnTotal(week, "platform_commission_xof")
      && s.commissionPct == GetCommissionPct(|week|)
  {
    var week := WeekTrips(history, driver, now);
    if history != [] && HasColumn(history, "created_at") && HasColumn(history, "driver_username") {
      if !HasColumn(history, "driver_earnings_xof") {
        ColumnAbsentFromWeek(history, driver, now, "driver_earnings_xof");
      }
      if !HasColumn(history, "platform_commission_xof") {
        ColumnAbsentFromWeek(history, driver, now, "platform_commission_xof");
      }
    } else {
      NoColumnNoWeek(history, driver, now);
    }
  }

  /** A column missing from the history is missing from every row of the
      week, so it sums to zero there. */
  lemma ColumnAbsentFromWeek(history: seq<Record>, driver: string, now: Instant, column: string)
    requires !HasColumn(history, column)
    ensures ColumnTotal(WeekTrips(history, driver, now), column) == 0.0
  {
    var week := WeekTrips(history, driver, now);
    forall r | r in week ensures column !in r {
      WeekTripsExact(history, driver, now, r);
    }
  }

  /** A row stored by a booking: the record of a trip whose commission
      and earnings add up to its price. */
  ghost predicate BookedRow(r: Record)
  {
    exists t: Trip :: r == TripRecord(t) && t.platformCommission + t.driverEarnings == t.price
  }

  /** In a booked row the earnings and commission cells add up to the
      price cell. */
  lemma BookedRowBalanced(r: Record)
    requires BookedRow(r)
    ensures (if "driver_earnings_xof" in r then Amount(r["driver_earnings_xof"]) else 0.0)
          + (if "platform_commission_xof" in r then Amount(r["platform_commission_xof"]) else 0.0)
         == (if "price_xof" in r then Amount(r["price_xof"]) else 0.0)
  {
    var t: Trip :| r == TripRecord(t) && t.platformCommission + t.driverEarnings == t.price;
    TripRecordBalanced(t);
  }

  /** For a history of booked trips, the dashboard's earnings and
      commission add up to what the driver's passengers paid this week. */
  lemma SummaryAddsUpToPrices(history: seq<Record>, driver: string, now: Instant)
    requires forall r :: r in history ==> BookedRow(r)
    ensures var s := DriverWeeklySummary(history, driver, now);
      s.driverEarnings + s.platformCommission
        == ColumnTotal(WeekTrips(history, driver, now), "price_xof")
  {
    SummaryIsWeekTotals(history, driver, now);
    var week := WeekTrips(history, driver, now);
    forall r | r in week
      ensures (if "driver_earnings_xof" in r then Amount(r["driver_earnings_xof"]) else 0.0)
            + (if "platform_commission_xof" in r then Amount(r["platform_commission_xof"]) else 0.0)
           == (if "price_xof" in r then Amount(r["price_xof"]) else 0.0)
    {
      WeekTripsExact(history, driver, now, r);
      BookedRowBalanced(r);
    }
    ColumnTotalsAddUp(week, "driver_earnings_xof", "platform_commission_xof", "price_xof");
  }

  /** The dashboard's tier counts only past trips, while a booking counts
      the trip being booked as well: for the same history and window the
      two percentages differ exactly when the driver's weekly count is 19,
      39 or 59. */
  lemma DashboardTierLagsBooking(history: seq<Record>, driver: string, now: Instant, createdAt: Instant,
                                 ride: RideRequest)
    requires driver != ""
    ensures var s := DriverWeeklySummary(history, driver, now);
      var t := Book(history, Some(driver), now, createdAt, ride).value;
      t.platformPct != s.commissionPct <==> (s.trips == 19 || s.trips == 39 || s.trips == 59)
  {
    SummaryIsWeekTotals(history, driver, now);
    BookSpec(history, Some(driver), now, createdAt, ride);
    CommissionStepsAt(DriverWeeklySummary(history, driver, now).trips);
  }

  /** The dashboard block: shown only while a non-empty username is logged
      in, and then it is that driver's weekly summary. */
  function Dashboard(logged: Option<string>, history: seq<Record>, now: Instant): (d: Option<WeeklySummary>)
    ensures d.Some? <==> (logged.Some? && logged.value != "")
    ensures d.Some? ==> d.value.trips == WeeklyTripCount(history, logged.value, now)
  {
    if logged.Some? && logged.value != "" then
      SummaryIsWeekTotals(history, logged.value, now);
      Some(DriverWeeklySummary(history, logged.value, now))
    else None
  }
}
