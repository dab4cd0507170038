/** The records of the two collections, `facility` and `booking`, and the
    body of an admin action, with the defaults their schemas declare. */
module Schemas {
  import opened TimeOfDay

  datatype Option<+T> = None | Some(value: T)

  /** The ten fixed facility categories. */
  datatype FacilityType =
    | MeetingRoom
    | DiscussionRoom
    | BanquetHall
    | Gym
    | TrainingCentre
    | Studio
    | BadmintonCourt
    | MultipurposeCourt
    | FootballField
    | NetballCourt

  /** A bookable facility; `code` is its unique identifier. */
  datatype Facility = Facility(
    name: string,
    code: string,
    location: Option<string>,
    capacity: Option<int>,
    kind: FacilityType,
    isActive: bool)

  /** A facility record built with the schema's defaults for the fields the
      caller leaves out: no capacity, and active. */
  function NewFacility(name: string, code: string, kind: FacilityType, location: Option<string>): (f: Facility)
    ensures f.capacity == None && f.isActive
    ensures f.name == name && f.code == code && f.kind == kind && f.location == location
  {
    Facility(name, code, location, None, kind, true)
  }

  /** The five statuses a booking can be in. */
  datatype Status = Pending | Approved | Rejected | Cancelled | NoShow

  /** The two decisions an administrator can take. */
  datatype Decision = Approve | Reject

  datatype AdminAction = AdminAction(action: Decision, note: Option<string>)

  /** A booking of one facility for one interval of one day. `facilityId`
      names the facility record; `facilityCode` repeats its code. */
  datatype Booking = Booking(
    facilityId: nat,
    facilityCode: string,
    userName: string,
    userEmail: string,
    purpose: Option<string>,
    date: Day,
    start: Clock,
    end: Clock,
    status: Status,
    accessCode: Option<string>,
    checkedInAt: Option<Instant>)

  /** A booking record built with the schema's defaults: pending, with no
      access code and no check-in time. */
  function NewBooking(
    facilityId: nat, facilityCode: string, userName: string, userEmail: string,
    purpose: Option<string>, date: Day, start: Clock, end: Clock): (b: Booking)
    ensures b.status == Pending && b.accessCode == None && b.checkedInAt == None
    ensures b.facilityId == facilityId && b.facilityCode == facilityCode
    ensures b.userName == userName && b.userEmail == userEmail && b.purpose == purpose
    ensures b.date == date && b.start == start && b.end == end
  {
    Booking(facilityId, facilityCode, userName, userEmail, purpose, date, start, end, Pending, None, None)
  }
}
