/** Confirming a ride in the passenger app (passenger_app.py:62-121): the
    fare for the distance, the promotion, the driver's commission tier from
    their trailing-week trips counting the trip being booked, the split of
    the price between platform and driver, and the trip record appended to
    the trip store. The two clock reads of the source (the end of the window
    and the `created_at` stamp) are parameters. */
module Booking {
  import opened Rounding
  import opened Records
  import opened Pricing
  import opened Weekly

  /** What the passenger entered. The distance is the great-circle estimate
      of the pickup and drop-off points, computed outside this model. */
  datatype RideRequest = RideRequest(
    pickupLat: real, pickupLon: real, dropLat: real, dropLon: real,
    distanceMiles: real, city: string, promoCode: string, referralCode: string)

  /** A confirmed trip, field by field as it is stored. */
  datatype Trip = Trip(
    driverUsername: string,
    pickupLat: real, pickupLon: real, dropLat: real, dropLon: real,
    distanceMiles: real,
    price: int, priceBeforeDiscount: int, discount: int,
    promoCode: string, referralCode: string,
    platformCommission: int, driverEarnings: int,
    platformPct: int, driverPct: int,
    city: string, createdAt: Instant)

  datatype BookingError = NoDriverSelected

  /** `price * pct / 100` with true division. */
  function PercentOf(amount: int, pct: int): real
  {
    (amount * pct) as real / 100.0
  }

  /** `round(price * pct / 100)`: the platform's commission on a price. */
  function PlatformCommission(price: int, pct: int): (c: int)
    ensures PercentOf(price, pct) - 0.5 <= c as real <= PercentOf(price, pct) + 0.5
  {
    Round(PercentOf(price, pct))
  }

  /** The commission is the percentage of the price to within one half and,
      for a non-negative price and a percentage of at most 100, never
      negative and never more than the price, so the driver's remainder is
      not either. */
  lemma CommissionSplit(price: int, pct: int)
    requires 0 <= price && 0 <= pct <= 100
    ensures var c := PlatformCommission(price, pct);
      && 0 <= c <= price
      && 0 <= price - c <= price
      && PercentOf(price, pct) - 0.5 <= c as real <= PercentOf(price, pct) + 0.5
  {
    assert 0 <= price * pct <= price * 100 by {
      assert price * (100 - pct) >= 0;
    }
    RoundBetween(PercentOf(price, pct), 0, price);
  }

  /** `x.upper() if x else ""`: the guard changes nothing, the empty text
      upper-cases to itself. */
  function UpperOrEmpty(s: string): (r: string)
    ensures r == Upper(s)
  {
    if s != [] then Upper(s) else ""
  }

  /** The outcome of pressing "Confirm ride" with trip history `history`,
      the window ending at `now` and the record stamped `createdAt`. */
  function Book(history: seq<Record>, chosen: Option<string>, now: Instant, createdAt: Instant,
                ride: RideRequest): (r: Result<Trip, BookingError>)
    ensures r.Err? <==> (chosen.None? || chosen.value == "")
    ensures r.Ok? ==> r.value.platformCommission + r.value.driverEarnings == r.value.price
    ensures r.Ok? ==> r.value.platformPct + r.value.driverPct == 100
  {
    if chosen.None? || chosen.value == "" then Err(NoDriverSelected)
    else
      var driver := chosen.value;
      var fare := ComputeFare(ride.distanceMiles);
      var promo := ApplyPromo(ride.promoCode, fare);
      var weekly := WeeklyTripCount(history, driver, now);
      var pct := GetCommissionPct(weekly + 1);
      var platform := PlatformCommission(promo.final, pct);
      Ok(Trip(driver,
              ride.pickupLat, ride.pickupLon, ride.dropLat, ride.dropLon,
              ride.distanceMiles,
              promo.final, fare, promo.discount,
              UpperOrEmpty(ride.promoCode), UpperOrEmpty(ride.referralCode),
              platform, promo.final - platform,
              pct, 100 - pct,
              ride.city, createdAt))
  }

  /** What a booking guarantees: it fails exactly when no driver is
      chosen; otherwise price and discount are the promotion applied to the
      fare, so the price is the fare less the discount; the commission is
      the rounded platform percentage of the price, and commission and
      driver earnings are non-negative and add up to the price; the two
      percentages add up to 100; the tier counts the trip being booked on
      top of the driver's trailing week; and the codes are stored
      upper-cased. */
  lemma BookSpec(history: seq<Record>, chosen: Option<string>, now: Instant, createdAt: Instant,
                 ride: RideRequest)
    ensures Book(history, chosen, now, createdAt, ride).Err? <==> (chosen.None? || chosen.value == "")
    ensures Book(history, chosen, now, createdAt, ride).Ok? ==>
      var t := Book(history, chosen, now, createdAt, ride).value;
      && t.driverUsername == chosen.value
      && t.priceBeforeDiscount == ComputeFare(ride.distanceMiles)
      && PromoResult(t.price, t.discount) == ApplyPromo(ride.promoCode, t.priceBeforeDiscount)
      && t.price + t.discount == t.priceBeforeDiscount
      && 0 <= t.price <= t.priceBeforeDiscount
      && t.platformCommission == PlatformCommission(t.price, t.platformPct)
      && 0 <= t.platformCommission <= t.price
      && 0 <= t.driverEarnings <= t.price
      && t.platformCommission + t.driverEarnings == t.price
      && t.platformPct + t.driverPct == 100
      && PercentOf(t.price, t.platformPct) - 0.5 <= t.platformCommission as real
           <= PercentOf(t.price, t.platformPct) + 0.5
      && t.platformPct == GetCommissionPct(|WeekTrips(history, chosen.value, now)| + 1)
      && t.promoCode == Upper(ride.promoCode)
      && t.referralCode == Upper(ride.referralCode)
      && t.createdAt == createdAt
  {
    if chosen.Some? && chosen.value != "" {
      var fare := ComputeFare(ride.distanceMiles);
      PromoConservesFare(ride.promoCode, fare);
      var promo := ApplyPromo(ride.promoCode, fare);
      var pct := GetCommissionPct(WeeklyTripCount(history, chosen.value, now) + 1);
      CommissionSplit(promo.final, pct);
    }
  }

  /** With no usable promotion and no trips this week, a ride of zero
      miles costs the base fare of 500 XOF, of which the platform takes
      14%: 70 XOF, leaving 430 XOF to the driver. */
  lemma FirstShortRideExample(driver: string, now: Instant, createdAt: Instant, ride: RideRequest)
    requires driver != ""
    requires ride.distanceMiles == 0.0 && ride.promoCode == ""
    ensures Book([], Some(driver), now, createdAt, ride).Ok?
    ensures var t := Book([], Some(driver), now, createdAt, ride).value;
      t.price == 500 && t.discount == 0 && t.platformPct == 14
      && t.platformCommission == 70 && t.driverEarnings == 430
  {
    RoundInt(500);
    RoundInt(70);
    assert PercentOf(500, 14) == 70 as real;
  }

  /** The stored form of a trip: `created_at` is written as ISO text and
      read back as the same instant, so a trip is in its driver's week at
      the moment it is stamped. */
  function TripRecord(t: Trip): (r: Record)
    ensures InWeek(r, t.driverUsername, t.createdAt)
  {
    map[
      "driver_username" := Str(t.driverUsername),
      "pickup_lat" := Num(t.pickupLat),
      "pickup_lon" := Num(t.pickupLon),
      "drop_lat" := Num(t.dropLat),
      "drop_lon" := Num(t.dropLon),
      "distance_miles" := Num(t.distanceMiles),
      "price_xof" := Int(t.price),
      "price_before_discount_xof" := Int(t.priceBeforeDiscount),
      "discount_xof" := Int(t.discount),
      "promo_code" := Str(t.promoCode),
      "referral_code" := Str(t.referralCode),
      "platform_commission_xof" := Int(t.platformCommission),
      "driver_earnings_xof" := Int(t.driverEarnings),
      "platform_pct" := Int(t.platformPct),
      "driver_pct" := Int(t.driverPct),
      "city" := Str(t.city),
      "routing_provider" := Str("demo_haversine"),
      "created_at" := Stamp(t.createdAt),
      "client_app" := Str("passenger_mobile_demo")
    ]
  }

  /** A stored trip falls in a driver's week exactly when it is theirs and
      its stamp lies in the window. */
  lemma TripRecordInWeek(t: Trip, driver: string, now: Instant)
    ensures InWeek(TripRecord(t), driver, now)
        <==> (t.driverUsername == driver && now - Week <= t.createdAt <= now)
  {
    var r := TripRecord(t);
    assert r["driver_username"] == Str(t.driverUsername);
    assert r["created_at"] == Stamp(t.createdAt);
  }

  /** In a stored trip the driver's earnings and the platform's commission
      add up to the price. */
  lemma TripRecordBalanced(t: Trip)
    requires t.platformCommission + t.driverEarnings == t.price
    ensures var r := TripRecord(t);
      Amount(r["driver_earnings_xof"]) + Amount(r["platform_commission_xof"]) == Amount(r["price_xof"])
  {
  }

  /** A booked trip counts toward its driver's next tier: in any window
      that contains its stamp, the driver's weekly count grows by one. */
  lemma BookingCountsNextTime(history: seq<Record>, driver: string, now: Instant, createdAt: Instant,
                              ride: RideRequest, later: Instant)
    requires driver != ""
    requires later - Week <= createdAt <= later
    ensures var t := Book(history, Some(driver), now, createdAt, ride).value;
      WeeklyTripCount(history + [TripRecord(t)], driver, later) == WeeklyTripCount(history, driver, later) + 1
  {
    var t := Book(history, Some(driver), now, createdAt, ride).value;
    BookSpec(history, Some(driver), now, createdAt, ride);
    TripRecordInWeek(t, driver, later);
    WeekTripsAppend(history, TripRecord(t), driver, later);
  }

  /** Confirming a ride: on success exactly one trip record, the booked
      one, is appended to the store; on error the store is untouched. */
  method ConfirmRide(trips: Store, chosen: Option<string>, now: Instant, createdAt: Instant,
                     ride: RideRequest) returns (outcome: Result<Trip, BookingError>)
    modifies trips
    ensures outcome == Book(old(trips.records), chosen, now, createdAt, ride)
    ensures outcome.Err? ==> trips.records == old(trips.records)
    ensures outcome.Ok? ==> trips.records == old(trips.records) + [TripRecord(outcome.value)]
  {
    if chosen.None? || chosen.value == "" {
      return Err(NoDriverSelected);
    }
    var history := trips.records;
    outcome := Book(history, chosen, now, createdAt, ride);
    trips.Append(TripRecord(outcome.value));
  }
}
