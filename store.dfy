/** The booking store and its endpoints: seeding the catalogue, availability,
    create, the admin decision, check-in and the no-show sweep.

    The two collections are sequences held by a `Store` object; a booking's
    id is its position in `bookings`. Clock readings, the three random bytes
    of an access code and the no-show grace period are parameters. */
module BookingStore {
  import opened TimeOfDay
  import opened Schemas
  import opened Catalogue
  import opened Occupancy
  import AccessCode
  import Lifecycle

  /** The failures the endpoints report (404, 400, 409, 404, 400 and 403). */
  datatype Error =
    | FacilityNotFound
    | InvalidTimeRange
    | SlotUnavailable
    | NotFound
    | NotApproved
    | InvalidAccessCode

  datatype Result<T> = Ok(value: T) | Err(error: Error)

  type BookingId = nat

  /** The body of a create request. */
  datatype CreateRequest = CreateRequest(
    facilityCode: string,
    userName: string,
    userEmail: string,
    purpose: Option<string>,
    date: Day,
    start: Clock,
    end: Clock)

  /** One entry of the `unavailable` list. */
  datatype Interval = Interval(start: Clock, end: Clock, status: Status)

  datatype AvailabilityReport = AvailabilityReport(
    facilityCode: string,
    date: Day,
    unavailable: seq<Interval>,
    fullyOccupied: bool,
    open: Clock,
    close: Clock)

  datatype SeedReply = AlreadySeeded(count: nat) | Seeded(count: nat)

  /** The grace period used when the environment sets none. */
  const DEFAULT_GRACE_MIN := 15

  /** Some facility of the catalogue has this code. */
  predicate Catalogued(facs: seq<Facility>, code: string)
  {
    exists i :: 0 <= i < |facs| && facs[i].code == code
  }

  function IntervalsOf(rows: seq<Booking>): seq<Interval>
  {
    seq(|rows|, i requires 0 <= i < |rows| => Interval(rows[i].start, rows[i].end, rows[i].status))
  }

  /** What every stored booking satisfies, given how the endpoints build and
      change bookings: it names a catalogued facility, its interval is
      non-empty, nothing makes it `cancelled`, a pending booking has neither
      code nor check-in, an approved one holds a well-formed code, a
      check-in only happens with a code, and a no-show was never checked in. */
  predicate WellFormed(facs: seq<Facility>, b: Booking)
  {
    && b.facilityId < |facs|
    && facs[b.facilityId].code == b.facilityCode
    && Minutes(b.start) < Minutes(b.end)
    && b.status != Cancelled
    && (b.status == Pending ==> b.accessCode == None && b.checkedInAt == None)
    && (b.status == Approved ==> b.accessCode.Some? && AccessCode.IsAccessCode(b.accessCode.value))
    && (b.checkedInAt.Some? ==> b.accessCode.Some?)
    && (b.status == NoShow ==> b.checkedInAt == None)
  }

  /** Every booking names a facility, so an empty catalogue means an empty table. */
  lemma BookingsNeedFacilities(facs: seq<Facility>, bs: seq<Booking>)
    requires forall i :: 0 <= i < |bs| ==> WellFormed(facs, bs[i])
    ensures bs != [] ==> facs != []
  {
    if bs != [] {
      assert WellFormed(facs, bs[0]);
    }
  }

  /** The sweep only turns approved bookings that were never checked in into
      no-shows, so every booking stays well formed. */
  lemma SweepKeepsWellFormed(facs: seq<Facility>, bs: seq<Booking>, today: Day, now: Instant, grace: int)
    requires forall i :: 0 <= i < |bs| ==> WellFormed(facs, bs[i])
    ensures forall i :: 0 <= i < |bs| ==> WellFormed(facs, Lifecycle.Swept(bs, today, now, grace)[i])
  {
  }

  /** With the default grace period, an approved booking starting at 08:00
      today that nobody checked in to is not yet due at 08:14, is due from
      08:15 on, and a booking dated tomorrow is not due whatever the time. */
  lemma DefaultGraceBoundary(today: Day)
    ensures var b := Booking(0, "MR-1", "A", "a@example.com", None, today, "08:00", "09:00",
                             Approved, Some("0A1B2C"), None);
            && !Lifecycle.DueNoShow(b, today, ToInstant(today, "08:14"), DEFAULT_GRACE_MIN)
            && Lifecycle.DueNoShow(b, today, ToInstant(today, "08:15"), DEFAULT_GRACE_MIN)
            && Lifecycle.DueNoShow(b, today, ToInstant(today, "08:16"), DEFAULT_GRACE_MIN)
            && !Lifecycle.DueNoShow(b.(date := today + 1), today, ToInstant(today, "23:59"), DEFAULT_GRACE_MIN)
  {
    assert Minutes("08:00") == 480 && Minutes("08:14") == 494;
    assert Minutes("08:15") == 495 && Minutes("08:16") == 496;
  }

  /** The loop of `sweep_noshows` over the booking table: marks every due
      booking `no_show` and counts them. */
  method SweepRows(rows: seq<Booking>, today: Day, now: Instant, grace: int)
    returns (swept: seq<Booking>, changed: nat)
    ensures swept == Lifecycle.Swept(rows, today, now, grace)
    ensures changed == Lifecycle.DueCount(rows, today, now, grace)
  {
    swept := rows;
    changed := 0;
    for i := 0 to |rows|
      invariant |swept| == |rows|
      invariant forall j {:trigger swept[j]} :: 0 <= j < i ==> swept[j] == Lifecycle.SweepOne(rows[j], today, now, grace)
      invariant forall j {:trigger swept[j]} :: i <= j < |rows| ==> swept[j] == rows[j]
      invariant changed == Lifecycle.DueAmong(rows, i, today, now, grace)
    {
      var b := rows[i];
      if Lifecycle.DueNoShow(b, today, now, grace) {
        swept := swept[i := b.(status := NoShow)];
        changed := changed + 1;
      }
    }
    Lifecycle.SweptPointwise(rows, swept, today, now, grace);
  }

  /** `find_one({"code": code})`: the position of the first facility with
      that code, if any. */
  method FindFacility(facs: seq<Facility>, code: string) returns (k: Option<nat>)
    ensures k == None <==> !Catalogued(facs, code)
    ensures k.Some? ==> k.value < |facs| && facs[k.value].code == code
    ensures k.Some? ==> forall i :: 0 <= i < k.value ==> facs[i].code != code
  {
    var i := 0;
    while i < |facs|
      invariant 0 <= i <= |facs|
      invariant forall j :: 0 <= j < i ==> facs[j].code != code
    {
      if facs[i].code == code {
        return Some(i);
      }
      i := i + 1;
    }
    return None;
  }

  /** The create endpoint's scan: stops at the first existing row that
      overlaps the candidate. */
  method FindConflict(rows: seq<Booking>, s: Clock, e: Clock) returns (found: bool)
    ensures found <==> exists k :: 0 <= k < |rows| && Overlaps(s, e, rows[k].start, rows[k].end)
  {
    for k := 0 to |rows|
      invariant forall j :: 0 <= j < k ==> !Overlaps(s, e, rows[j].start, rows[j].end)
    {
      if Overlaps(s, e, rows[k].start, rows[k].end) {
        return true;
      }
    }
    return false;
  }

  /** The availability endpoint, over a catalogue and a booking table. */
  method Availability(facs: seq<Facility>, bs: seq<Booking>, code: string, date: Day)
    returns (r: Result<AvailabilityReport>)
    ensures r.Err? <==> !Catalogued(facs, code)
    ensures r.Err? ==> r.error == FacilityNotFound
    ensures r.Ok? ==> r.value.facilityCode == code && r.value.date == date
    ensures r.Ok? ==> r.value.open == OPEN && r.value.close == CLOSE
    ensures r.Ok? ==> r.value.unavailable == IntervalsOf(Lifecycle.ActiveOn(bs, code, date))
    ensures r.Ok? ==> (r.value.fullyOccupied <==> FullyOccupied(Lifecycle.ActiveOn(bs, code, date)))
  {
    var k := FindFacility(facs, code);
    if k == None {
      return Err(FacilityNotFound);
    }
    var rows := Lifecycle.ActiveOn(bs, code, date);
    var full := ScanFullyOccupied(rows);
    r := Ok(AvailabilityReport(code, date, IntervalsOf(rows), full, OPEN, CLOSE));
  }

  class Store {
    var facilities: seq<Facility>
    var bookings: seq<Booking>

    /** Facility codes are unique and every booking is well formed. */
    ghost predicate Valid()
      reads this
    {
      CodesDistinct(facilities) && forall i :: 0 <= i < |bookings| ==> WellFormed(facilities, bookings[i])
    }

    /** An empty store. */
    constructor ()
      ensures Valid() && facilities == [] && bookings == []
    {
      facilities := [];
      bookings := [];
    }

    /** `seed_facilities`: inserts the default catalogue into an empty
        facility collection, and leaves a non-empty one alone. */
    method SeedFacilities() returns (reply: SeedReply)
      modifies this
      requires Valid()
      ensures Valid() && bookings == old(bookings)
      ensures old(facilities) != [] ==> reply == AlreadySeeded(old(|facilities|)) && facilities == old(facilities)
      ensures old(facilities) == [] ==> reply == Seeded(36) && facilities == DefaultFacilities()
    {
      if |facilities| > 0 {
        return AlreadySeeded(|facilities|);
      }
      var defaults := BuildDefaultFacilities();
      DefaultCatalogue();
      reply := InsertAll(defaults);
    }

    /** The insertion loop of `seed_facilities`, one `create_document` per
        facility of the list. */
    method InsertAll(defaults: seq<Facility>) returns (reply: SeedReply)
      modifies this
      requires Valid() && facilities == [] && CodesDistinct(defaults)
      ensures Valid() && bookings == old(bookings)
      ensures facilities == defaults && reply == Seeded(|defaults|)
    {
      BookingsNeedFacilities(facilities, bookings);
      var inserted := 0;
      for i := 0 to |defaults|
        invariant facilities == defaults[..i] && inserted == i && bookings == []
      {
        facilities := facilities + [defaults[i]];
        inserted := inserted + 1;
      }
      assert defaults[..|defaults|] == defaults;
      reply := Seeded(inserted);
    }

    /** `create_booking`: unknown facility, then an empty or reversed
        interval, then an overlap with an active booking of the facility and
        date are refused in that order; otherwise one pending booking is
        appended and its id returned. */
    method CreateBooking(req: CreateRequest) returns (r: Result<BookingId>)
      modifies this
      requires Valid()
      ensures Valid() && facilities == old(facilities)
      ensures r == Err(FacilityNotFound) <==> !Catalogued(facilities, req.facilityCode)
      ensures r == Err(InvalidTimeRange) <==>
                Catalogued(facilities, req.facilityCode) && Minutes(req.start) >= Minutes(req.end)
      ensures r == Err(SlotUnavailable) <==>
                Catalogued(facilities, req.facilityCode) && Minutes(req.start) < Minutes(req.end)
                && Lifecycle.HasConflict(old(bookings), req.facilityCode, req.date, req.start, req.end)
      ensures r.Ok? <==>
                Catalogued(facilities, req.facilityCode) && Minutes(req.start) < Minutes(req.end)
                && !Lifecycle.HasConflict(old(bookings), req.facilityCode, req.date, req.start, req.end)
      ensures r.Err? ==> bookings == old(bookings)
      ensures r.Ok? ==> r.value == |old(bookings)| && |bookings| == |old(bookings)| + 1
      ensures r.Ok? ==> bookings[..|old(bookings)|] == old(bookings)
      ensures r.Ok? ==>
                var b := bookings[|old(bookings)|];
                && facilities[b.facilityId].code == req.facilityCode
                && b == NewBooking(b.facilityId, req.facilityCode, req.userName, req.userEmail,
                                   req.purpose, req.date, req.start, req.end)
      ensures old(Lifecycle.NoOverlap(bookings)) ==> Lifecycle.NoOverlap(bookings)
    {
      var k := FindFacility(facilities, req.facilityCode);
      if k == None {
        return Err(FacilityNotFound);
      }
      StrLessIsMinuteLess(req.start, req.end);
      if !StrLess(req.start, req.end) {
        return Err(InvalidTimeRange);
      }
      var existing := Lifecycle.ActiveOn(bookings, req.facilityCode, req.date);
      var clash := FindConflict(existing, req.start, req.end);
      Lifecycle.ScanFindsConflict(bookings, req.facilityCode, req.date, req.start, req.end);
      if clash {
        return Err(SlotUnavailable);
      }
      var b := NewBooking(k.value, req.facilityCode, req.userName, req.userEmail,
                          req.purpose, req.date, req.start, req.end);
      assert WellFormed(facilities, b);
      if Lifecycle.NoOverlap(bookings) {
        Lifecycle.CreatePreservesNoOverlap(bookings, b);
      }
      r := Ok(|bookings|);
      bookings := bookings + [b];
    }

    /** `admin_action`: approve sets `approved` and a code made from the
        three random bytes; reject sets `rejected`. The prior status is not
        looked at, and only the targeted booking changes. */
    method AdminAction(id: BookingId, action: AdminAction, entropy: seq<AccessCode.Byte>)
      returns (r: Result<Decision>)
      modifies this
      requires Valid() && |entropy| == AccessCode.ENTROPY_BYTES
      ensures Valid() && facilities == old(facilities)
      ensures id >= |old(bookings)| ==> r == Err(NotFound) && bookings == old(bookings)
      ensures id < |old(bookings)| && action.action == Approve ==>
                && r == Ok(Approve)
                && bookings == old(bookings)[id := Lifecycle.Approve(old(bookings)[id], AccessCode.Make(entropy))]
      ensures id < |old(bookings)| && action.action == Reject ==>
                r == Ok(Reject) && bookings == old(bookings)[id := Lifecycle.Reject(old(bookings)[id])]
      ensures r == Ok(Approve) ==>
                bookings[id].status == Approved && bookings[id].accessCode.Some?
                && AccessCode.IsAccessCode(bookings[id].accessCode.value)
      ensures id < |old(bookings)| && (action.action == Reject || Lifecycle.IsActive(old(bookings)[id])) ==>
                (old(Lifecycle.NoOverlap(bookings)) ==> Lifecycle.NoOverlap(bookings))
    {
      if id >= |bookings| {
        return Err(NotFound);
      }
      var b := bookings[id];
      if action.action == Approve {
        var code := AccessCode.Make(entropy);
        AccessCode.MakeIsAccessCode(entropy);
        if Lifecycle.NoOverlap(bookings) && Lifecycle.IsActive(b) {
          Lifecycle.ApprovePreservesNoOverlap(bookings, id, code);
        }
        bookings := bookings[id := Lifecycle.Approve(b, code)];
        r := Ok(Approve);
      } else {
        if Lifecycle.NoOverlap(bookings) {
          Lifecycle.RejectPreservesNoOverlap(bookings, id);
        }
        bookings := bookings[id := Lifecycle.Reject(b)];
        r := Ok(Reject);
      }
    }

    /** `check_in`: a missing booking, one that is not approved, and a code
        other than the stored one are refused without any change; otherwise
        the check-in time is recorded, replacing any earlier one. */
    method CheckIn(id: BookingId, code: string, now: Instant) returns (r: Result<()>)
      modifies this
      requires Valid()
      ensures Valid() && facilities == old(facilities)
      ensures id >= |old(bookings)| ==> r == Err(NotFound)
      ensures id < |old(bookings)| && old(bookings)[id].status != Approved ==> r == Err(NotApproved)
      ensures id < |old(bookings)| && old(bookings)[id].status == Approved && old(bookings)[id].accessCode != Some(code) ==>
                r == Err(InvalidAccessCode)
      ensures r.Err? ==> bookings == old(bookings)
      ensures r.Ok? <==> id < |old(bookings)| && old(bookings)[id].status == Approved && old(bookings)[id].accessCode == Some(code)
      ensures r.Ok? ==> bookings == old(bookings)[id := Lifecycle.CheckIn(old(bookings)[id], now)]
      ensures r.Ok? ==> bookings[id].status == Approved && bookings[id].checkedInAt == Some(now)
      ensures old(Lifecycle.NoOverlap(bookings)) ==> Lifecycle.NoOverlap(bookings)
    {
      if id >= |bookings| {
        return Err(NotFound);
      }
      var b := bookings[id];
      if b.status != Approved {
        return Err(NotApproved);
      }
      if b.accessCode != Some(code) {
        return Err(InvalidAccessCode);
      }
      if Lifecycle.NoOverlap(bookings) {
        Lifecycle.CheckInPreservesNoOverlap(bookings, id, now);
      }
      bookings := bookings[id := Lifecycle.CheckIn(b, now)];
      r := Ok(());
    }

    /** `sweep_noshows`: marks every due booking `no_show` and returns how
        many it marked. */
    method SweepNoShows(today: Day, now: Instant, grace: int) returns (changed: nat)
      modifies this
      requires Valid()
      ensures Valid() && facilities == old(facilities)
      ensures bookings == Lifecycle.Swept(old(bookings), today, now, grace)
      ensures changed == Lifecycle.DueCount(old(bookings), today, now, grace)
      ensures old(Lifecycle.NoOverlap(bookings)) ==> Lifecycle.NoOverlap(bookings)
    {
      var rows := bookings;
      SweepKeepsWellFormed(facilities, rows, today, now, grace);
      if Lifecycle.NoOverlap(rows) {
        Lifecycle.SweepPreservesNoOverlap(rows, today, now, grace);
      }
      var swept;
      swept, changed := SweepRows(rows, today, now, grace);
      bookings := swept;
    }
  }

  /** Seeding twice: the first call inserts the 36 defaults, the second finds
      them and inserts nothing. */
  method SeedTwice() returns (first: SeedReply, second: SeedReply)
    ensures first == Seeded(36) && second == AlreadySeeded(36)
  {
    var store := new Store();
    first := store.SeedFacilities();
    DefaultCatalogue();
    second := store.SeedFacilities();
  }
}
