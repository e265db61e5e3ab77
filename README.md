# Mali Ride pricing and ledger core, in Dafny

This project models the business rules of the Mali Ride demo. A passenger books a ride, and the rules turn it into a priced trip record:

- **Fare**: a base fare plus a per-mile rate, rounded half to even as Python's `round` does.
- **Promotion**: a code is stripped of whitespace, upper-cased and looked up in a table of four codes. A known code takes its rounded fraction off the fare, clamped at zero.
- **Commission tier**: the platform keeps 14, 12, 10 or 8 percent. The step depends on how many trips the driver had in the trailing seven days. When booking, the trip being booked counts too.
- **Split**: the platform takes the rounded percentage of the price and the driver gets the rest.
- **Trip record**: assembled field by field and appended to the trip store.

It also models:

- the driver app's registration, log-in and weekly dashboard;
- the three record stores (drivers, trips, admin logins), as in-memory lists of dictionaries with append, first-match update, and the newest-first admin-login listing.

Modules:

- `Rounding` (`rounding.dfy`): round half to even on exact rationals.
- `Records` (`records.dfy`): record values, `Option`/`Result`, the `Store` class with append and update-first-by-username.
- `Pricing` (`pricing.dfy`): the commission tiers, Python's `str.strip`/`str.upper` as used for promotion codes, `apply_promo`, `compute_fare`.
- `Weekly` (`weekly.dfy`): the trailing-week mask, the guarded trip count, column sums.
- `Booking` (`booking.dfy`): confirming a ride.
- `DriverApp` (`driver_app.dfy`): registration, the session, the weekly dashboard.
- `AdminLogins` (`admin_logins.dfy`): the admin-login listing, with a stable descending sort.

Timestamps are instants in microseconds from 0001-01-01, so `datetime.min` is instant 0. A stored timestamp text that parses is `Stamp(t)`; anything else in a timestamp field counts as not parsing. The two wall-clock reads of the booking are two parameters:

- `now`, the end of the counting window;
- `createdAt`, the stamp written into the record.

The dashboard's clock read is the parameter `now`.

## Model

| member | source | states |
|---|---|---|
| Rounding.Round | shared.py:177 | the result is within one half of the argument, and even when the argument is exactly halfway between two integers (Python's `round`) |
| Rounding.RoundUnique | shared.py:177 | those two properties determine the rounded value uniquely |
| Rounding.RoundInt | shared.py:177 | integers round to themselves |
| Rounding.RoundMonotone | shared.py:177 | rounding preserves order |
| Rounding.RoundBetween | shared.py:150 | a value between two integers rounds to a value between them |
| Records.FirstMatch | shared.py:80-83 | the index found is the first record whose `username` matches; `None` means no record matches |
| Records.UpdateFirst | shared.py:78-84 | the update keeps the number of drivers |
| Records.UpdateFirstSpec | shared.py:78-84 | position by position: only the first record with that username is merged with the updates; every other record is unchanged |
| Records.UpdateWithoutMatch | shared.py:78-84 | with no matching record the list is unchanged |
| Records.UpdateMerges | shared.py:82 | the merged record has the union of keys; update values win and other keys keep their values |
| Records.UpdateTwice | shared.py:78-84 | two updates that leave `username` alone equal one update with the later values winning |
| Records.UpdateIdempotent | shared.py:78-84 | repeating such an update changes nothing more |
| Records.Store.Append | shared.py:73-76 | the store becomes the old list plus the new record (also `save_trip_to_db` shared.py:92-95 and `save_admin_login_to_db` shared.py:100-103) |
| Records.Store.UpdateFirstByUsername | shared.py:78-84 | the loop with `break` leaves the store equal to `UpdateFirst` of the old list |
| Pricing.GetCommissionPct | shared.py:122-131 | the percentage is one of 8, 10, 12, 14 |
| Pricing.CommissionTierBoundaries | shared.py:122-131 | 0 and 19 give 14, 20 and 39 give 12, 40 and 59 give 10, 60 and above give 8 |
| Pricing.CommissionNonIncreasing | shared.py:122-131 | more weekly trips never raise the percentage |
| Pricing.CommissionStepsAt | shared.py:122-131 | one more trip changes the tier if and only if the count goes from 19, 39 or 59 |
| Pricing.StripStart | shared.py:146 | removes a whitespace-only prefix and leaves a suffix that does not start with whitespace |
| Pricing.StripEnd | shared.py:146 | removes a whitespace-only suffix and leaves a prefix that does not end with whitespace |
| Pricing.Strip | shared.py:146 | the result is no longer than the input and has no whitespace at either end |
| Pricing.StripStartSkipsSpace | shared.py:146 | leading whitespace is dropped entirely |
| Pricing.StripEndSkipsSpace | shared.py:146 | trailing whitespace is dropped entirely |
| Pricing.StripPadding | shared.py:146 | whitespace padding around an already-stripped text strips back to that text |
| Pricing.StripKeepsTrimmed | shared.py:146 | a text with non-whitespace ends is its own strip |
| Pricing.StripIdempotent | shared.py:146 | stripping twice is stripping once |
| Pricing.StripParts | shared.py:146 | every text is whitespace, then its strip, then whitespace |
| Pricing.Upper | shared.py:146 | upper-casing keeps the length, leaves no lower-case ASCII letter, and keeps whitespace exactly where it was (so it neither creates nor removes strippable padding); each character goes through the case table |
| Pricing.UpperCharFacts | shared.py:146 | an upper-cased character is never an ASCII lower-case letter; upper-casing it again changes nothing; it is whitespace if and only if the original was |
| Pricing.UpperIdempotent | shared.py:146 | upper-casing twice is upper-casing once |
| Pricing.UpperConcat | shared.py:146 | upper-casing distributes over concatenation |
| Pricing.UpperAllSpace | shared.py:146 | a whitespace-only text is unchanged by upper-casing |
| Pricing.StripUpperCommute | shared.py:146 | stripping and upper-casing commute |
| Pricing.PromoCodes | shared.py:136-141 | every listed code has a discount fraction in (0, 0.5] |
| Pricing.Discount | shared.py:147-152 | no fraction, or a zero one, leaves `(fare, 0)`; otherwise the discount is the rounded fraction of the fare and the final price is clamped at zero, being fare minus discount whenever it is positive |
| Pricing.ApplyPromo | shared.py:143-145 | an empty code returns the fare and a zero discount |
| Pricing.ShareWithin | shared.py:150 | a fraction in [0, 1] of a non-negative fare lies between zero and the fare |
| Pricing.DiscountSplitsFare | shared.py:147-152 | for a non-negative fare, the discount is the fare times the fraction to within one half, lies between 0 and the fare, and final price plus discount equals the fare |
| Pricing.PromoUnknownIsNoOp | shared.py:143-149 | an empty code or an unknown normalised code leaves `(fare, 0)` |
| Pricing.PromoSplitsFare | shared.py:146-152 | a known code's discount is its rounded rate of the fare; final plus discount equals the fare and neither is negative |
| Pricing.PromoConservesFare | shared.py:143-152 | for any code and non-negative fare, final plus discount equals the fare and the final price is between 0 and the fare |
| Pricing.PromoNormalizes | shared.py:146-147 | a code and its stripped, upper-cased form give the same result |
| Pricing.Welcome50Half | shared.py:137-152 | any code that normalises to `WELCOME50` turns a fare of 1000 into `(500, 500)` |
| Pricing.Welcome50Example | shared.py:137-152 | `apply_promo("welcome50", 1000)` is `(500, 500)` |
| Pricing.Welcome50PaddedExample | shared.py:146-152 | `apply_promo(" welcome50 ", 1000)` is `(500, 500)` |
| Pricing.ComputeFare | shared.py:173-177 | the fare is at least 500; any distance ≤ 0 gives exactly 500; otherwise it is within one half of 500 + 300·miles |
| Pricing.FareNonDecreasing | shared.py:176-177 | a longer distance never costs less |
| Weekly.InWeek | passenger_app.py:88-92 | the mask for one row; what it selects is stated by `Weekly.WeekTripsExact` and `Booking.TripRecordInWeek` |
| Weekly.WeekTrips | passenger_app.py:88-92 | the selected trips are those of the driver whose parsed `created_at` lies in `[now - 7 days, now]`, both ends included, each with its multiplicity in the history |
| Weekly.NoColumnNoWeek | passenger_app.py:83 | a history with no `created_at` or no `driver_username` column selects nothing |
| Weekly.WeeklyTripCount | passenger_app.py:81-93 | the guarded count always equals the number of trips the mask selects; an empty history gives 0 |
| Weekly.WeekTripsAppend | passenger_app.py:88-93 | a trip appended to the history is added to the week if and only if the mask selects it |
| Weekly.WeekTripsExact | driver_app.py:84-89 | a row is in the week if and only if it is in the history and the mask selects it |
| Weekly.ColumnTotal | driver_app.py:92-94 | a column no row carries sums to 0; non-negative cells give a non-negative sum |
| Weekly.ColumnTotalConcat | driver_app.py:92 | a column sum over two concatenated lists is the sum of the two sums |
| Weekly.ColumnTotalsAddUp | driver_app.py:91-94 | rows whose two columns add up to a third give column sums that add up the same way |
| Booking.PlatformCommission | passenger_app.py:96 | the commission is the platform percentage of the price to within one half |
| Booking.CommissionSplit | passenger_app.py:96-97 | for a non-negative price and 0 ≤ pct ≤ 100, the commission is pct% of the price to within one half; commission and driver earnings each lie between 0 and the price |
| Booking.UpperOrEmpty | passenger_app.py:109-110 | `x.upper() if x else ""` is `x.upper()`: the guard changes nothing |
| Booking.Book | passenger_app.py:76-120 | booking fails if and only if no driver is chosen; on success commission and earnings add up to the price and the two percentages to 100 (the full promise is `Booking.BookSpec`) |
| Booking.BookSpec | passenger_app.py:63-120 | booking fails if and only if no driver is chosen. Otherwise: the price before discount is `compute_fare` of the distance; price and discount are exactly `apply_promo` of that fare, so the price is the fare less the discount; the commission is exactly `round(price · pct / 100)`, and commission and earnings are non-negative and sum to the price; the percentages sum to 100; the tier is taken on the week's count plus one; the codes are upper-cased; `created_at` is the given instant |
| Booking.FirstShortRideExample | passenger_app.py:95-97 | zero miles, no promotion, empty history: 500 XOF, 14%, 70 to the platform, 430 to the driver |
| Booking.TripRecord | passenger_app.py:99-120 | a stored trip is in its own driver's week at the instant it is stamped |
| Booking.TripRecordInWeek | passenger_app.py:99-120 | a stored trip is in a driver's week if and only if it is theirs and its stamp lies in the window |
| Booking.TripRecordBalanced | passenger_app.py:107-111 | in a stored trip, the earnings and commission fields add up to the price field |
| Booking.BookingCountsNextTime | passenger_app.py:81-121 | a booked trip raises its driver's count by one in every window that contains its stamp |
| Booking.ConfirmRide | passenger_app.py:76-121 | the outcome is `Book` of the old history; on error the trip store is unchanged; on success exactly the booked trip's record is appended |
| DriverApp.Registration | driver_app.py:41-53 | registration fails if and only if the username is empty; otherwise it gives the driver's record |
| DriverApp.DriverRecord | driver_app.py:45-53 | the new record is found under the form's username by the first-match lookup, and its `status` is "Available" |
| DriverApp.DriverRecordFields | driver_app.py:45-53 | the record carries exactly the seven keys, the form's values and `status` "Available" |
| DriverApp.RegisterDriver | driver_app.py:41-54 | on error the driver store is unchanged; on success exactly the new record is appended |
| DriverApp.DuplicateUsernames | driver_app.py:41-54 | a taken username can be registered again; later updates reach only the earlier record |
| DriverApp.Session.LogIn | driver_app.py:63-64 | after logging in, the session holds that username |
| DriverApp.Dashboard | driver_app.py:68-98 | the dashboard appears if and only if a non-empty username is logged in, and then shows that driver's weekly count |
| DriverApp.DriverWeeklySummary | driver_app.py:72-98 | the count shown is the guarded weekly count, never more than the history's size, and the percentage is the tier of that count |
| DriverApp.SummaryIsWeekTotals | driver_app.py:78-98 | despite the guards: the count is the size of the driver's week, earnings and commission are sums over exactly those trips, and the tier is taken on the count without adding one |
| DriverApp.ColumnAbsentFromWeek | driver_app.py:91-94 | a column missing from the history sums to 0 over the week |
| DriverApp.BookedRowBalanced | passenger_app.py:107-111 | in a row stored by a booking, the earnings and commission cells add up to the price cell |
| DriverApp.SummaryAddsUpToPrices | driver_app.py:90-94 | for a history of booked trips, weekly earnings plus commission equal the week's total price |
| DriverApp.DashboardTierLagsBooking | driver_app.py:98 | the dashboard's percentage differs from the one the next booking uses if and only if the weekly count is 19, 39 or 59 |
| AdminLogins.SortDesc | shared.py:114 | the sort keeps the number of entries (its order, permutation and stability are the lemmas below) |
| AdminLogins.SortDescPermutes | shared.py:114 | the sort result is a permutation of its input |
| AdminLogins.SortDescFacts | shared.py:114 | the sort result is newest first and a permutation of its input |
| AdminLogins.InsertStable | shared.py:114 | insertion puts the new element after all existing elements with its key |
| AdminLogins.SortDescStable | shared.py:114 | for every key, the elements with that key keep their input order (Python's stable sort with `reverse=True`) |
| AdminLogins.SortDescMap | shared.py:108-116 | sorting commutes with a map that preserves each element's key |
| AdminLogins.Take | shared.py:117 | `s[:limit]` has length `min(limit, n)` for `limit ≥ 0` and `max(0, n + limit)` for a negative limit, and is a prefix |
| AdminLogins.TagUntag | shared.py:108-116 | adding then popping `_ts` loses nothing else, and the tag's key is the login's own parsed time |
| AdminLogins.TagSortUntag | shared.py:108-116 | sorting the tagged logins by `_ts` and popping the tag equals sorting the untagged logins by their own parsed timestamps |
| AdminLogins.LoadAdminLogins | shared.py:105-117 | tagging, sorting by the tag and popping it gives exactly the reference listing: untagged logins sorted newest first by their own timestamps, cut to `limit` |
| AdminLogins.AdminLoginView | shared.py:105-117 | with `limit ≥ 0` the listing has `min(limit, n)` entries |
| AdminLogins.AdminLoginViewEntries | shared.py:108-116 | every entry is a stored login with `_ts` removed; no entry carries `_ts` |
| AdminLogins.AdminLoginViewOrder | shared.py:108-114 | entries are newest first by parsed `timestamp_iso`; entries whose timestamp is missing or unparseable (ranked as `datetime.min`) come after all others |
| AdminLogins.AdminLoginViewStable | shared.py:114 | with no cut, for every timestamp the logins carrying it keep their stored order |
| AdminLogins.AdminLoginViewNewest | shared.py:114-117 | the whole list is sorted before the cut, so every stored login left out is no newer than any entry shown |
| AdminLogins.DefaultListing | admin_app.py:213 | the admin page's call with the default limit 300 lists `min(300, n)` logins, newest first, and no login left out is newer than one shown |

## Left out

- `haversine_miles` (shared.py:161-171): floating-point trigonometry. The distance is an input of the booking.
- Reading and writing the JSON files (shared.py:51-65) is not part of this model. A store is an in-memory list, and its swallowed I/O errors are not modelled.
- Floating point: fares, rates and percentages are exact rationals. The source multiplies binary floats, so a product that lands just beside a half may round differently there.
- Pricing.ApplyPromo: returns the integer 0 where the source returns the float `0.0` as the discount for an empty or unknown code. Both are stored as the same amount.
- Pricing.Upper: maps ASCII letters, Latin-1 letters, `ÿ`, `µ`, dotless `ı` and long `ſ`. The source's `str.upper` covers all of Unicode, including characters that expand to several letters (`ß` → `SS`). Outside the covered set the model leaves characters as they are.
- A promotion code of `None` is the empty code here; the source treats both as "no code".
- Timestamp parsing: pandas' and `datetime.fromisoformat`'s text formats, their range, and time zones are not modelled. A stamp either parses to an instant or does not. The error that Python raises when it compares time-zone-aware and naive datetimes is not modelled.
- Weekly.Amount: non-numeric cells count as 0. In the source a text cell in a summed column makes the sum fail, and the dashboard's `try`/`except` then keeps the totals reached so far.
- The `route_summary` field of the trip record is not modelled: it is display text built from neighbourhood names.
- UI, messages, language labels and constant tables (`labels`, `MALI_CITIES`, `BKO_NEIGHBORHOODS`) are not modelled.
- `admin_app.py` and `investor_dashboard.py` are not modelled. The admin login record appended by `save_admin_login_to_db` is modelled only through `Store.Append` and the listing.
- Concurrent read-modify-write of the stores is not modelled.
- No code implements trip cancellation, cancellation fees, driver ratings or cancel counts; `investor_dashboard.py` only reads such columns when they are present. They are not modelled.
