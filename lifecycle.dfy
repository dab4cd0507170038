/** The booking table as a value: which bookings hold a slot, the conflict
    test of the create endpoint, the no-overlap invariant, and the changes
    the admin action, check-in and the no-show sweep make to one booking or
    to the whole table. The store's methods are proved against these. */
module Lifecycle {
  import opened TimeOfDay
  import opened Schemas

  /** Pending and approved bookings hold their slot; rejected, cancelled and
      no-show bookings free it. */
  predicate IsActive(b: Booking)
  {
    b.status == Pending || b.status == Approved
  }

  /** The store query `{"facility_code": code, "date": date, "status":
      {"$in": ["pending", "approved"]}}` selects b. */
  predicate Selected(b: Booking, code: string, date: Day)
  {
    IsActive(b) && b.facilityCode == code && b.date == date
  }

  /** The rows that query returns, in store order. */
  function ActiveOn(bs: seq<Booking>, code: string, date: Day): (rows: seq<Booking>)
    ensures |rows| <= |bs|
    ensures forall k :: 0 <= k < |rows| ==> Selected(rows[k], code, date)
  {
    if bs == [] then []
    else ActiveOn(bs[..|bs| - 1], code, date) + (if Selected(bs[|bs| - 1], code, date) then [bs[|bs| - 1]] else [])
  }

  /** The query returns exactly the selected bookings of the table. */
  lemma {:induction false} ActiveOnMembers(bs: seq<Booking>, code: string, date: Day)
    ensures forall b :: b in ActiveOn(bs, code, date) <==> b in bs && Selected(b, code, date)
  {
    if bs != [] {
      var init := bs[..|bs| - 1];
      ActiveOnMembers(init, code, date);
      assert bs == init + [bs[|bs| - 1]];
    }
  }

  /** Two active bookings of the same facility and date whose intervals overlap. */
  predicate Clash(a: Booking, b: Booking)
  {
    IsActive(a) && IsActive(b) && a.facilityCode == b.facilityCode && a.date == b.date
    && Overlaps(a.start, a.end, b.start, b.end)
  }

  /** Invariant I2: no two distinct active bookings of one facility and date overlap. */
  predicate NoOverlap(bs: seq<Booking>)
  {
    forall i, j :: 0 <= i < |bs| && 0 <= j < |bs| && i != j ==> !Clash(bs[i], bs[j])
  }

  /** Some active booking of the facility and date overlaps the candidate [s, e). */
  predicate HasConflict(bs: seq<Booking>, code: string, date: Day, s: Clock, e: Clock)
  {
    exists k :: 0 <= k < |bs| && Selected(bs[k], code, date) && Overlaps(s, e, bs[k].start, bs[k].end)
  }

  /** Some row of a scanned list overlaps the candidate [s, e). */
  predicate OverlapsAny(rows: seq<Booking>, s: Clock, e: Clock)
  {
    exists k :: 0 <= k < |rows| && Overlaps(s, e, rows[k].start, rows[k].end)
  }

  /** Scanning the rows the query returns finds an overlap exactly when the
      table holds a conflicting active booking. */
  lemma ScanFindsConflict(bs: seq<Booking>, code: string, date: Day, s: Clock, e: Clock)
    ensures OverlapsAny(ActiveOn(bs, code, date), s, e) <==> HasConflict(bs, code, date, s, e)
  {
    var rows := ActiveOn(bs, code, date);
    ActiveOnMembers(bs, code, date);
    if OverlapsAny(rows, s, e) {
      var k :| 0 <= k < |rows| && Overlaps(s, e, rows[k].start, rows[k].end);
      assert rows[k] in rows;
      var j :| 0 <= j < |bs| && bs[j] == rows[k];
      assert Selected(bs[j], code, date);
    }
    if HasConflict(bs, code, date, s, e) {
      var j :| 0 <= j < |bs| && Selected(bs[j], code, date) && Overlaps(s, e, bs[j].start, bs[j].end);
      assert bs[j] in bs;
      var k :| 0 <= k < |rows| && rows[k] == bs[j];
    }
  }

  /** Admitting a booking that conflicts with no active booking keeps I2. */
  lemma CreatePreservesNoOverlap(bs: seq<Booking>, b: Booking)
    requires NoOverlap(bs)
    requires !HasConflict(bs, b.facilityCode, b.date, b.start, b.end)
    ensures NoOverlap(bs + [b])
  {
    var bs' := bs + [b];
    forall i, j | 0 <= i < |bs'| && 0 <= j < |bs'| && i != j
      ensures !Clash(bs'[i], bs'[j])
    {
      if i == |bs| {
        assert !(Selected(bs[j], b.facilityCode, b.date) && Overlaps(b.start, b.end, bs[j].start, bs[j].end));
      } else if j == |bs| {
        assert !(Selected(bs[i], b.facilityCode, b.date) && Overlaps(b.start, b.end, bs[i].start, bs[i].end));
      } else {
        assert bs'[i] == bs[i] && bs'[j] == bs[j];
      }
    }
  }

  /** Same facility, date and interval. */
  predicate SameSlot(a: Booking, b: Booking)
  {
    a.facilityCode == b.facilityCode && a.date == b.date && a.start == b.start && a.end == b.end
  }

  /** bs' keeps every booking's slot and holds a slot only where bs did. */
  predicate HoldsNoMore(bs: seq<Booking>, bs': seq<Booking>)
  {
    |bs| == |bs'| && forall i :: 0 <= i < |bs| ==> SameSlot(bs[i], bs'[i]) && (IsActive(bs'[i]) ==> IsActive(bs[i]))
  }

  /** A change that frees slots and takes none keeps I2. */
  lemma NoOverlapWhenHoldingNoMore(bs: seq<Booking>, bs': seq<Booking>)
    requires NoOverlap(bs) && HoldsNoMore(bs, bs')
    ensures NoOverlap(bs')
  {
    forall i, j | 0 <= i < |bs'| && 0 <= j < |bs'| && i != j
      ensures !Clash(bs'[i], bs'[j])
    {
      assert !Clash(bs[i], bs[j]);
    }
  }

  /** Approve: status `approved` and the freshly drawn access code. */
  function Approve(b: Booking, code: string): (r: Booking)
    ensures SameSlot(b, r) && IsActive(r) && r.accessCode == Some(code) && r.checkedInAt == b.checkedInAt
  {
    b.(status := Approved, accessCode := Some(code))
  }

  /** Reject: status `rejected`; everything else stays. */
  function Reject(b: Booking): (r: Booking)
    ensures SameSlot(b, r) && !IsActive(r) && r.accessCode == b.accessCode && r.checkedInAt == b.checkedInAt
  {
    b.(status := Rejected)
  }

  /** Check-in: records the time; the status stays. */
  function CheckIn(b: Booking, at: Instant): (r: Booking)
    ensures SameSlot(b, r) && r.status == b.status && r.accessCode == b.accessCode && r.checkedInAt == Some(at)
  {
    b.(checkedInAt := Some(at))
  }

  /** Rejecting any booking keeps I2. */
  lemma RejectPreservesNoOverlap(bs: seq<Booking>, id: nat)
    requires id < |bs| && NoOverlap(bs)
    ensures NoOverlap(bs[id := Reject(bs[id])])
  {
    NoOverlapWhenHoldingNoMore(bs, bs[id := Reject(bs[id])]);
  }

  /** Approving a booking that already holds its slot keeps I2. */
  lemma ApprovePreservesNoOverlap(bs: seq<Booking>, id: nat, code: string)
    requires id < |bs| && NoOverlap(bs) && IsActive(bs[id])
    ensures NoOverlap(bs[id := Approve(bs[id], code)])
  {
    NoOverlapWhenHoldingNoMore(bs, bs[id := Approve(bs[id], code)]);
  }

  /** Checking in keeps I2. */
  lemma CheckInPreservesNoOverlap(bs: seq<Booking>, id: nat, at: Instant)
    requires id < |bs| && NoOverlap(bs)
    ensures NoOverlap(bs[id := CheckIn(bs[id], at)])
  {
    NoOverlapWhenHoldingNoMore(bs, bs[id := CheckIn(bs[id], at)]);
  }

  /** Approve has no status guard: a rejected booking whose slot was taken by
      a later booking can be approved back into a clash. */
  lemma UnguardedApproveBreaksNoOverlap()
    ensures var early := Booking(0, "MR-1", "A", "a@example.com", None, 739038, "09:00", "10:00", Rejected, None, None);
            var later := Booking(0, "MR-1", "B", "b@example.com", None, 739038, "09:30", "10:30", Pending, None, None);
            var bs := [early, later];
            NoOverlap(bs) && !NoOverlap(bs[0 := Approve(early, "0A1B2C")])
  {
    var early := Booking(0, "MR-1", "A", "a@example.com", None, 739038, "09:00", "10:00", Rejected, None, None);
    var later := Booking(0, "MR-1", "B", "b@example.com", None, 739038, "09:30", "10:30", Pending, None, None);
    var bs := [early, later];
    var bs' := bs[0 := Approve(early, "0A1B2C")];
    assert Minutes("09:00") == 540 && Minutes("10:00") == 600;
    assert Minutes("09:30") == 570 && Minutes("10:30") == 630;
    assert Clash(bs'[0], bs'[1]);
    forall i, j | 0 <= i < |bs| && 0 <= j < |bs| && i != j
      ensures !Clash(bs[i], bs[j])
    {
      assert !IsActive(bs[0]);
    }
  }

  /** The four conditions of the no-show sweep. */
  predicate DueNoShow(b: Booking, today: Day, now: Instant, grace: int)
  {
    && b.status == Approved
    && b.checkedInAt == None
    && b.date <= today
    && now >= ToInstant(b.date, b.start) + grace
  }

  /** One booking after the sweep: it keeps its slot and can only give it up. */
  function SweepOne(b: Booking, today: Day, now: Instant, grace: int): (r: Booking)
    ensures SameSlot(b, r) && (IsActive(r) ==> IsActive(b))
    ensures r.checkedInAt == b.checkedInAt && r.accessCode == b.accessCode
  {
    if DueNoShow(b, today, now, grace) then b.(status := NoShow) else b
  }

  /** The table after a sweep: every due booking is marked `no_show`, every
      other booking is left as it was. */
  function Swept(bs: seq<Booking>, today: Day, now: Instant, grace: int): (r: seq<Booking>)
    ensures |r| == |bs|
  {
    seq(|bs|, i requires 0 <= i < |bs| => SweepOne(bs[i], today, now, grace))
  }

  /** A table that agrees with the sweep booking by booking is the swept table. */
  lemma SweptPointwise(bs: seq<Booking>, r: seq<Booking>, today: Day, now: Instant, grace: int)
    requires |r| == |bs|
    requires forall j :: 0 <= j < |bs| ==> r[j] == SweepOne(bs[j], today, now, grace)
    ensures r == Swept(bs, today, now, grace)
  {
  }

  /** How many of the first n bookings of the table are due: the running
      count of the sweep loop. */
  function DueAmong(bs: seq<Booking>, n: nat, today: Day, now: Instant, grace: int): (c: nat)
    requires n <= |bs|
    ensures c <= n
  {
    if n == 0 then 0
    else DueAmong(bs, n - 1, today, now, grace) + (if DueNoShow(bs[n - 1], today, now, grace) then 1 else 0)
  }

  /** How many bookings of the whole table are due: what the sweep returns. */
  function DueCount(bs: seq<Booking>, today: Day, now: Instant, grace: int): nat
  {
    DueAmong(bs, |bs|, today, now, grace)
  }

  /** A sweep changes a booking exactly when it is due, and then only its
      status, from `approved` to `no_show`. */
  lemma SweptAt(bs: seq<Booking>, today: Day, now: Instant, grace: int, i: nat)
    requires i < |bs|
    ensures Swept(bs, today, now, grace)[i] != bs[i] <==> DueNoShow(bs[i], today, now, grace)
    ensures DueNoShow(bs[i], today, now, grace) ==>
              bs[i].status == Approved && Swept(bs, today, now, grace)[i] == bs[i].(status := NoShow)
  {
  }

  /** The running count is zero exactly when none of the first n bookings is due. */
  lemma {:induction false} DueAmongZeroIffNoneDue(bs: seq<Booking>, n: nat, today: Day, now: Instant, grace: int)
    requires n <= |bs|
    ensures DueAmong(bs, n, today, now, grace) == 0 <==> forall i :: 0 <= i < n ==> !DueNoShow(bs[i], today, now, grace)
  {
    if n > 0 {
      DueAmongZeroIffNoneDue(bs, n - 1, today, now, grace);
    }
  }

  /** The sweep leaves the table unchanged exactly when no booking is due. */
  lemma SweptUnchangedIffNoneDue(bs: seq<Booking>, today: Day, now: Instant, grace: int)
    ensures Swept(bs, today, now, grace) == bs <==> forall i :: 0 <= i < |bs| ==> !DueNoShow(bs[i], today, now, grace)
  {
    var r := Swept(bs, today, now, grace);
    if r == bs {
      forall i | 0 <= i < |bs|
        ensures !DueNoShow(bs[i], today, now, grace)
      {
        SweptAt(bs, today, now, grace, i);
      }
    }
  }

  /** Nothing is due exactly when the sweep leaves the table unchanged. */
  lemma DueCountZeroIffUnchanged(bs: seq<Booking>, today: Day, now: Instant, grace: int)
    ensures DueCount(bs, today, now, grace) == 0 <==> Swept(bs, today, now, grace) == bs
  {
    DueAmongZeroIffNoneDue(bs, |bs|, today, now, grace);
    SweptUnchangedIffNoneDue(bs, today, now, grace);
  }

  /** A second sweep with the same clock finds nothing due and changes nothing. */
  lemma SweepIdempotent(bs: seq<Booking>, today: Day, now: Instant, grace: int)
    ensures DueCount(Swept(bs, today, now, grace), today, now, grace) == 0
    ensures Swept(Swept(bs, today, now, grace), today, now, grace) == Swept(bs, today, now, grace)
  {
    var r := Swept(bs, today, now, grace);
    assert Swept(r, today, now, grace) == r;
    DueCountZeroIffUnchanged(r, today, now, grace);
  }

  /** The sweep frees slots and takes none, so it keeps I2. */
  lemma SweepPreservesNoOverlap(bs: seq<Booking>, today: Day, now: Instant, grace: int)
    requires NoOverlap(bs)
    ensures NoOverlap(Swept(bs, today, now, grace))
  {
    NoOverlapWhenHoldingNoMore(bs, Swept(bs, today, now, grace));
  }
}
