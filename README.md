# Smart Access facility booking: the booking lifecycle in Dafny

This project models the booking lifecycle of the Smart Access facilities
management service: the fixed catalogue of bookable facilities and the
seed-once rule, the half-open overlap test on `HH:MM` times, the
per-minute occupancy calculation behind the availability query, the conflict
guard of booking creation, the admin approve/reject decision with its
access code, access-code check-in, and the no-show sweep.

The MongoDB collections `facility` and `booking` become the two sequence
fields of a `Store` object; a booking's id is its position in `bookings`.
The wall clock (`datetime.utcnow()`), the three random bytes of
`os.urandom(3)` and the `NO_SHOW_GRACE_MIN` setting are parameters.

Modules, leaf first:

- `TimeOfDay` (`time_of_day.dfy`): zero-padded `HH:MM` times (`Clock`),
  `minutes`, Python string order on times, dates as day ordinals, instants
  as `day * 1440 + minute` (`to_local_dt`), and `overlaps`.
- `AccessCode` (`access_code.dfy`): `os.urandom(3).hex().upper()` with the
  random bytes as input, and a parser that reads the code back.
- `Schemas` (`schemas.dfy`): the records of `schemas.py`, `Facility`, `Booking`, the status,
  facility-type and admin-action enumerations, and the schema defaults.
- `Catalogue` (`catalogue.dfy`): `build_default_facilities`, written as data
  (ten series of numbered facilities) plus the builder loop over it.
- `Lifecycle` (`lifecycle.dfy`): the booking table as a value: which
  bookings hold a slot, the conflict test, the no-overlap invariant
  (`NoOverlap`), the effect of approve, reject, check-in and the sweep.
- `Occupancy` (`occupancy.dfy`): the 840-cell `covered` array of the
  availability query and what `fully_occupied` means in minutes.
- `BookingStore` (`store.dfy`): the `Store` class and the endpoint
  operations, proved against the functions of `Lifecycle` and `Occupancy`.

The store keeps `Valid()`: facility codes are distinct, and every booking
names a catalogued facility, has a non-empty interval, is never
`cancelled`, has no code and no check-in while pending, holds a six-digit
upper-case hexadecimal code while approved, was checked in only with a
code, and was never checked in if it is a no-show. `NoOverlap` (no two
distinct pending or approved bookings of one facility and date overlap) is
not part of `Valid()`: approve does not look at the prior status, so
approving a rejected or no-show booking whose slot was taken in the meantime
breaks it (`Lifecycle.UnguardedApproveBreaksNoOverlap`). Every operation
keeps `NoOverlap` when it held before, except approve of a booking that
was not pending or approved.

The code has no guard in these places, and the model follows it:

- The admin action has no status guard. Approving or rejecting an
  already decided booking is allowed, and re-approval issues a new code.
- Check-in does not require `checked_in_at` to be unset. A repeat check-in
  with the right code overwrites the recorded time.
- Check-in tests the status before the code, so a wrong code on a booking
  that is not approved reports `NotApproved`.
- Times are checked only by the string comparison `start_time >=
  end_time`; the model only admits well-formed zero-padded times (see Left
  out).

## Model

| member | source | states |
|---|---|---|
| TimeOfDay.Minutes | main.py:168-170 | `hour*60 + minute` of a valid time lies in [0, 1440) |
| TimeOfDay.Format | main.py:168-170 | the time written for a minute of the day has exactly that minute value |
| TimeOfDay.FormatMinutes | main.py:168-170 | writing a time's minute value gives back the same `HH:MM` string |
| TimeOfDay.MinutesInjective | main.py:168-170 | two valid times with the same minute value are the same string |
| TimeOfDay.DigitValue | main.py:169 | a digit character's value is below 10 |
| TimeOfDay.DigitChar | main.py:169 | the character written for a digit is a digit with that value |
| TimeOfDay.DigitRoundTrip | main.py:169 | writing a digit's value gives back that digit |
| TimeOfDay.StrLess | main.py:236 | Python's string `<` never holds between a string and itself |
| TimeOfDay.StrLessIsMinuteLess | main.py:236 | Python's string `<` on zero-padded times agrees with minute order, so `start_time >= end_time` rejects exactly the empty and reversed intervals |
| TimeOfDay.ToInstant | main.py:36-40 | `to_local_dt(date, time)` falls within the 1440 minutes of its date |
| TimeOfDay.MinuteOfDay | main.py:36-40 | the minute of an instant lies in [0, 1440) |
| TimeOfDay.InstantRoundTrip | main.py:36-40 | the instant of a date and time yields that date and that time again |
| TimeOfDay.SplitInstant | main.py:36-40 | dividing `day*1440 + m` by 1440 gives the day, with remainder m |
| TimeOfDay.InstantOrder | main.py:36-40 | instants order by date first, then by time of day |
| TimeOfDay.Overlaps | main.py:43-48 | two intervals pinned to 2000-01-01 overlap iff `s1 < e2` and `s2 < e1` in minutes |
| TimeOfDay.OverlapsIffSharedMinute | main.py:43-48 | two non-empty intervals overlap iff some minute lies in both (half-open) |
| TimeOfDay.OverlapsSymmetric | main.py:43-48 | the overlap test is symmetric |
| TimeOfDay.AdjacentDoNotOverlap | main.py:43-48 | an interval ending when the other starts does not overlap it |
| AccessCode.Make | main.py:295 | `os.urandom(n).hex().upper()` has 2n characters |
| AccessCode.Hex | main.py:295 | `bytes.hex()` writes two characters per byte |
| AccessCode.Upper | main.py:295 | `str.upper()` keeps the length |
| AccessCode.NibbleValue | main.py:295 | an upper-case hexadecimal digit stands for a value below 16 |
| AccessCode.Parse | main.py:295 | reading hexadecimal text gives one byte per two characters |
| AccessCode.NibbleRoundTrip | main.py:295 | each hexadecimal digit written and upper-cased reads back as its value |
| AccessCode.MakeCons | main.py:295 | the first byte gives the first two characters of the code, the rest the rest |
| AccessCode.MakeIsUpperHex | main.py:295 | a code made from n bytes is 2n characters, each in `0-9A-F` |
| AccessCode.MakeIsAccessCode | main.py:295 | three random bytes always give exactly six characters from `0-9A-F` |
| AccessCode.ParseMake | main.py:295 | reading a made code back yields the bytes it was made from |
| AccessCode.MakeInjective | main.py:295 | distinct random draws give distinct codes |
| Schemas.NewFacility | schemas.py:11-32 | a facility built with defaults has no capacity and is active, and keeps the given name, code, type and location |
| Schemas.NewBooking | schemas.py:34-49 | a new booking is pending with no access code and no check-in time, and keeps the request's fields |
| Catalogue.NatToString | main.py:87 | the decimal text of a number is non-empty and all digits, and at least two digits from 10 on |
| Catalogue.NatToStringInjective | main.py:87 | different numbers have different decimal text |
| Catalogue.Members | main.py:86-87 | a `for i in range(count)` group yields `count` facilities |
| Catalogue.ExpandLength | main.py:83-108 | the catalogue has as many facilities as its groups' counts add up to |
| Catalogue.ExpandSnoc | main.py:83-108 | appending one more group appends its members to the catalogue |
| Catalogue.ExpandAt | main.py:83-108 | every catalogue entry is a member of one of the groups |
| Catalogue.SameSeriesCodes | main.py:86-87 | two members of one group have different codes |
| Catalogue.CrossSeriesCodes | main.py:83-108 | codes with different two-letter prefixes differ |
| Catalogue.HeadTailCodesDiffer | main.py:83-108 | no member of the first group shares a code with a later group |
| Catalogue.MembersCodesDistinct | main.py:86-87 | a group's codes are pairwise distinct |
| Catalogue.ConcatCodesDistinct | main.py:83-108 | joining two code-distinct lists with no shared code stays code-distinct |
| Catalogue.TailKeysDistinct | main.py:83-108 | dropping the first group keeps the prefixes distinct |
| Catalogue.ExpandCodesDistinct | main.py:83-108 | groups with distinct prefixes give a catalogue with pairwise distinct codes |
| Catalogue.DefaultKeysAre | main.py:85-107 | the codes of the ten default groups start with MR, DR, BH, GY, PT, ST, BC, MP, PF and NC |
| Catalogue.DefaultKeysListDistinct | main.py:85-107 | the ten two-letter keys are pairwise distinct |
| Catalogue.DefaultKeysDistinct | main.py:85-107 | the default groups have distinct prefixes |
| Catalogue.ExpandAllActive | main.py:83-108 | every facility of a catalogue is active |
| Catalogue.DefaultCount | main.py:83-108 | the default catalogue holds 36 facilities |
| Catalogue.DefaultCatalogue | main.py:83-110 | the default catalogue holds 36 active facilities with pairwise distinct codes |
| Catalogue.AppendSeries | main.py:86-87 | one builder loop appends the members of its group in order |
| Catalogue.BuildCatalogue | main.py:83-108 | the builder's loops yield the expansion of the groups |
| Catalogue.BuildDefaultFacilities | main.py:83-108 | `build_default_facilities` yields the default catalogue |
| Lifecycle.ActiveOn | main.py:153-157 | the store query returns no more rows than the table holds, each a pending or approved booking of the facility and date |
| Lifecycle.Approve | main.py:296 | approve keeps the booking's slot and check-in, makes it hold the slot, and stores the given code |
| Lifecycle.Reject | main.py:300 | reject keeps the booking's slot, code and check-in and frees the slot |
| Lifecycle.CheckIn | main.py:328 | check-in keeps the slot, status and code and records the check-in time |
| Lifecycle.ActiveOnMembers | main.py:153-157 | the availability and create queries return exactly the pending and approved bookings of the facility and date |
| Lifecycle.ScanFindsConflict | main.py:240-247 | scanning the returned rows finds an overlap iff the table holds a conflicting active booking |
| Lifecycle.CreatePreservesNoOverlap | main.py:240-260 | appending a booking that conflicts with no active booking keeps the no-overlap invariant |
| Lifecycle.NoOverlapWhenHoldingNoMore | main.py:283-356 | a change that keeps every slot and activates no booking keeps the no-overlap invariant |
| Lifecycle.RejectPreservesNoOverlap | main.py:299-302 | reject keeps the no-overlap invariant |
| Lifecycle.ApprovePreservesNoOverlap | main.py:294-298 | approving a pending or approved booking keeps the no-overlap invariant |
| Lifecycle.CheckInPreservesNoOverlap | main.py:328 | check-in keeps the no-overlap invariant |
| Lifecycle.UnguardedApproveBreaksNoOverlap | main.py:294-296 | approving a rejected booking whose slot a later booking took produces two overlapping active bookings |
| Lifecycle.Swept | main.py:348-353 | the swept table has as many bookings as the table |
| Lifecycle.SweptPointwise | main.py:348-353 | a table that agrees with the sweep booking by booking is the swept table |
| Lifecycle.SweepOne | main.py:348-353 | the sweep keeps each booking's slot, code and check-in, and never makes a booking hold a slot it did not hold |
| Lifecycle.DueAmong | main.py:347-353 | the sweep's running count after n bookings is at most n |
| Lifecycle.SweptAt | main.py:342-353 | the sweep changes a booking iff `DueNoShow` holds: it is approved, not checked in, dated today or earlier and its start plus grace has passed, and then only sets `no_show` |
| Lifecycle.DueAmongZeroIffNoneDue | main.py:347-356 | the running count over the first n bookings is zero iff none of them is due |
| Lifecycle.SweptUnchangedIffNoneDue | main.py:348-353 | the sweep leaves the table as it was iff no booking is due |
| Lifecycle.DueCountZeroIffUnchanged | main.py:347-356 | the sweep returns 0 iff it changes nothing |
| Lifecycle.SweepIdempotent | main.py:339-356 | a second sweep with the same clock returns 0 and changes nothing |
| Lifecycle.SweepPreservesNoOverlap | main.py:339-356 | the sweep keeps the no-overlap invariant |
| Occupancy.WindowBounds | main.py:166 | the window opens at minute 480 and closes at minute 1320 |
| Occupancy.MarksInWindow | main.py:172-178 | every index the marking loop writes lies in [0, 840) |
| Occupancy.MarksIffBooked | main.py:172-178 | `Marks`, the range of the inner loop: a booking marks cell i iff minute `480 + i` lies inside its interval |
| Occupancy.FullIffEveryMinuteBooked | main.py:164-180 | `FullyOccupied`, the test `covered and all(covered)`, holds iff every minute from 08:00 to 22:00 lies in a returned booking |
| Occupancy.ChainBooked | main.py:172-178 | bookings chained without gaps cover every minute from the first start to the end of the chain |
| Occupancy.TilingIsFull | main.py:164-180 | bookings that tile 08:00-22:00 give `fully_occupied` |
| Occupancy.GapIsNotFull | main.py:164-180 | one uncovered minute in the window gives not `fully_occupied` |
| Occupancy.CoveredSnoc | main.py:173-178 | marking one more booking adds exactly its cells |
| Occupancy.ScanFullyOccupied | main.py:164-180 | the array loops return true iff every cell of the window is marked by some booking |
| BookingStore.BookingsNeedFacilities | main.py:231-233 | bookings only exist once some facility does |
| BookingStore.SweepKeepsWellFormed | main.py:348-353 | the sweep keeps every booking well formed |
| BookingStore.DefaultGraceBoundary | main.py:336-351 | with the default grace of 15 minutes, an approved 08:00 booking of today is not `DueNoShow` at 08:14 and is from 08:15 on; one dated tomorrow is not due |
| BookingStore.SweepRows | main.py:339-356 | the sweep loop yields the swept table and the number of due bookings |
| BookingStore.FindFacility | main.py:149 | the facility lookup finds the first facility with the code, and fails iff none has it |
| BookingStore.FindConflict | main.py:245-247 | the scan reports a conflict iff some returned row overlaps the candidate |
| BookingStore.Availability | main.py:146-188 | unknown facility is an error; otherwise the report lists the active bookings' intervals, the window 08:00-22:00 and whether they fill it |
| BookingStore.Store.constructor | main.py:9 | a new store is empty and valid |
| BookingStore.Store.SeedFacilities | main.py:113-124 | an empty catalogue is seeded with the 36 defaults; a non-empty one is left alone and its size reported |
| BookingStore.Store.InsertAll | main.py:120-124 | the insertion loop stores the list in order and counts it |
| BookingStore.Store.CreateBooking | main.py:229-264 | unknown facility, then `start >= end`, then an overlap with an active booking fail without change; otherwise the request succeeds, exactly one new pending booking is appended, the rest are unchanged, and the no-overlap invariant is kept |
| BookingStore.Store.AdminAction | main.py:283-302 | a missing id fails without change; approve sets `approved` and a six-character `0-9A-F` code, reject sets `rejected`; only the targeted booking changes, and no-overlap is kept unless a non-active booking is approved |
| BookingStore.Store.CheckIn | main.py:313-329 | missing, not approved and wrong code fail without change; otherwise only `checked_in_at` is set to now and the status stays `approved` |
| BookingStore.Store.SweepNoShows | main.py:339-356 | the table becomes the swept table, the result is the number of due bookings, and no-overlap is kept |
| BookingStore.SeedTwice | main.py:113-124 | seeding twice returns `Seeded(36)` and then `AlreadySeeded(36)` |

## Left out

- HTTP plumbing: the FastAPI app, CORS middleware, route decorators, the
  mapping of errors to status codes, `root` and `uvicorn` start-up. Errors
  are the `Error` datatype.
- Email: `send_email`, `notify_admin_new_booking`, `notify_user_status` and
  the background task queue; they are fire-and-forget I/O.
- MongoDB and `database.py`: `database.py` is not part of this model. The
  collections are sequences; `create_document` is an append; a missing
  database (the 500 "Database not configured" reply) is not modelled.
- Booking ids: `ObjectId` parsing, its "Invalid booking id" reply and
  `oid_str`; an id is a position in the table, and `facility_id` is the
  facility's position instead of its `ObjectId` string.
- `list_facilities`, `my_bookings`, `admin_bookings` and `test_database`:
  read-only queries and diagnostics with no invariants of their own.
- Clock and randomness: `datetime.utcnow()` and `os.urandom(3)` are
  parameters; the mix of UTC `now` with local booking times is not
  modelled.
- `NO_SHOW_GRACE_MIN` is read from the environment; it is a parameter,
  with the default `DEFAULT_GRACE_MIN = 15` used in
  `BookingStore.DefaultGraceBoundary`.
- Concurrency: the check-then-insert race between two creates; the model is
  sequential.
- TimeOfDay.Clock: only zero-padded `HH:MM` with hour below 24 and minute
  below 60 can be given. The create endpoint checks times only with the
  string comparison at main.py:236 and parses them only inside `overlaps`,
  once per active booking of the facility and date. So a time such as
  `9:00` is ordered as a string, and a malformed or out-of-range time
  (`ab:cd` to `zz:zz`, `08:00` to `24:00`) is stored unparsed when no such
  booking exists; it fails later, in `int()` in availability, in
  `datetime(...)` in the sweep or in the next create's `overlaps`. These
  inputs are outside the model.
- TimeOfDay.Day: dates are day ordinals. Calendar validity, `strptime`
  failures, and the fact that the queries compare date strings literally
  are not modelled.
- AccessCode.Upper: upper-cases ASCII letters only; hexadecimal text never
  holds anything else.
- Lifecycle.DueNoShow: the sweep's query asks for `checked_in_at` to be
  absent. Whether `create_document` stores the `None` default as a null
  field, which that query would not match, depends on `database.py`, which
  is not part of this model; the model treats "not checked in" as absent.
- BookingStore.Store.SweepNoShows: the loop works on a copy of the table
  and stores the result once, instead of writing each document as it
  passes; with one writer the result is the same.
- Catalogue.BuildDefaultFacilities: the builder's five loops and five
  single appends are written as one loop over ten groups of numbered
  facilities (a single append is a group of one).
- The `note` field of an admin action is carried but, as in the source,
  never used.
- Sweep failures on a single booking (a store error mid-scan) cannot occur
  in the model.
