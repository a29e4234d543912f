/**
 * Booking: a fail-fast chain of checks on a requested one-hour slot, then a
 * single insert into the appointment table.
 */
module Booking {
  import opened Results
  import opened Time
  import opened Text
  import opened Models
  import opened Serializers
  import opened Slots

  /** A booking request whose fields have already been parsed; `startTime` is naive. */
  datatype BookingRequest = BookingRequest(ownerEmail: string, inviteeName: string, inviteeEmail: string, startTime: int)

  datatype BookingError =
    | InvalidRequest    // a field fails its length rule
    | PastDate          // the start lies before "now"
    | UnknownOwner      // no owner has the lower-cased address
    | MisalignedStart   // the minute of the start is not 0
    | AlreadyBooked     // an appointment of the owner overlaps the requested hour
    | NotAvailable      // the start is not the start of an offered slot

  /** The store after the request, and either the appointment inserted or why the request was refused. */
  datatype BookingResult = BookingResult(store: Store, outcome: Result<Appointment, BookingError>)

  /** Appointment `a` belongs to `owner` and meets the half-open interval `[start, end)`. */
  predicate Overlaps(a: Appointment, owner: nat, start: int, end: int) {
    a.owner == owner && a.startTime < end && a.endTime > start
  }

  predicate HasOverlap(appts: seq<Appointment>, owner: nat, start: int, end: int) {
    exists i :: 0 <= i < |appts| && Overlaps(appts[i], owner, start, end)
  }

  /** Some slot of `slots` starts exactly at `t` (the formatted start strings are equal). */
  predicate IsSlotStart(slots: seq<Slot>, t: int) {
    exists i :: 0 <= i < |slots| && slots[i].startTime == t
  }

  /**
   * `BookAppointmentAPI.post` with the clock read as `now`. The checks run in
   * this order and the first that fails decides the answer: field rules,
   * start before now, unknown owner, minute not 0, an overlapping
   * appointment, start not among the slots search offers for its date.
   * Only when all pass is one appointment appended, lasting one hour, with
   * an empty agenda; a refusal leaves the store as it was.
   */
  function Book(st: Store, now: int, req: BookingRequest): (r: BookingResult)
    ensures r.outcome.Err? ==> r.store == st
    ensures r.outcome.Ok? ==> r.store == st.(appointments := st.appointments + [r.outcome.value])
    ensures !ValidBookingFields(req.ownerEmail, req.inviteeName, req.inviteeEmail) ==>
      r.outcome == Err(InvalidRequest)
    ensures ValidBookingFields(req.ownerEmail, req.inviteeName, req.inviteeEmail) && req.startTime < now ==>
      r.outcome == Err(PastDate)
    ensures (&& ValidBookingFields(req.ownerEmail, req.inviteeName, req.inviteeEmail)
             && now <= req.startTime
             && forall i :: 0 <= i < |st.owners| ==> st.owners[i].email != Lower(req.ownerEmail)) ==>
      r.outcome == Err(UnknownOwner)
    ensures (&& ValidBookingFields(req.ownerEmail, req.inviteeName, req.inviteeEmail)
             && now <= req.startTime
             && (exists i :: 0 <= i < |st.owners| && st.owners[i].email == Lower(req.ownerEmail))
             && Minute(req.startTime) != 0) ==>
      r.outcome == Err(MisalignedStart)
    ensures (&& ValidBookingFields(req.ownerEmail, req.inviteeName, req.inviteeEmail)
             && now <= req.startTime
             && FindOwner(st.owners, Lower(req.ownerEmail)).Some?
             && Minute(req.startTime) == 0
             && HasOverlap(st.appointments, FindOwner(st.owners, Lower(req.ownerEmail)).value,
                           req.startTime, req.startTime + SlotLength)) ==>
      r.outcome == Err(AlreadyBooked)
    ensures (&& ValidBookingFields(req.ownerEmail, req.inviteeName, req.inviteeEmail)
             && now <= req.startTime
             && FindOwner(st.owners, Lower(req.ownerEmail)).Some?
             && Minute(req.startTime) == 0
             && !HasOverlap(st.appointments, FindOwner(st.owners, Lower(req.ownerEmail)).value,
                            req.startTime, req.startTime + SlotLength)
             && !IsSlotStart(AvailableSlots(st, FindOwner(st.owners, Lower(req.ownerEmail)).value, DateOf(req.startTime)),
                             req.startTime)) ==>
      r.outcome == Err(NotAvailable)
    ensures r.outcome.Ok? ==>
      var a := r.outcome.value;
      && ValidBookingFields(req.ownerEmail, req.inviteeName, req.inviteeEmail)
      && now <= req.startTime
      && a.owner < |st.owners| && st.owners[a.owner].email == Lower(req.ownerEmail)
      && Minute(req.startTime) == 0
      && a == Appointment(a.owner, req.inviteeName, req.inviteeEmail, req.startTime, req.startTime + SlotLength, DefaultAgenda)
      && !HasOverlap(st.appointments, a.owner, a.startTime, a.endTime)
      && IsSlotStart(AvailableSlots(st, a.owner, DateOf(a.startTime)), a.startTime)
  {
    if !ValidBookingFields(req.ownerEmail, req.inviteeName, req.inviteeEmail) then
      BookingResult(st, Err(InvalidRequest))
    else if req.startTime < now then
      BookingResult(st, Err(PastDate))
    else
      match FindOwner(st.owners, Lower(req.ownerEmail))
      case None => BookingResult(st, Err(UnknownOwner))
      case Some(owner) =>
        if Minute(req.startTime) != 0 then
          BookingResult(st, Err(MisalignedStart))
        else
          var end := req.startTime + SlotLength;
          if HasOverlap(st.appointments, owner, req.startTime, end) then
            BookingResult(st, Err(AlreadyBooked))
          else if !IsSlotStart(AvailableSlots(st, owner, DateOf(req.startTime)), req.startTime) then
            BookingResult(st, Err(NotAvailable))
          else
            var a := Appointment(owner, req.inviteeName, req.inviteeEmail, req.startTime, end, DefaultAgenda);
            BookingResult(st.(appointments := st.appointments + [a]), Ok(a))
  }

  /**
   * What a successful booking means, without reference to the order of the
   * checks: valid fields, not in the past, a known owner, minute 0, no
   * overlapping appointment and none starting at the same instant, and a
   * window of the date's weekday that holds the hour on its grid.
   */
  predicate Bookable(st: Store, now: int, req: BookingRequest, owner: nat) {
    var start := req.startTime;
    var date := DateOf(start);
    && ValidBookingFields(req.ownerEmail, req.inviteeName, req.inviteeEmail)
    && now <= start
    && owner < |st.owners| && st.owners[owner].email == Lower(req.ownerEmail)
    && Minute(start) == 0
    && !HasOverlap(st.appointments, owner, start, start + SlotLength)
    && (forall k :: 0 <= k < |st.appointments| && st.appointments[k].owner == owner ==>
          st.appointments[k].startTime != start)
    && exists w :: w in st.availability && DayMatches(w, owner, date) && OnGrid(Slot(start, start + SlotLength), w, date)
  }

  /** A booking succeeds exactly when it is `Bookable` for the owner the address names. */
  lemma BookSucceedsIff(st: Store, now: int, req: BookingRequest, owner: nat)
    requires OwnersValid(st.owners)
    requires owner < |st.owners| && st.owners[owner].email == Lower(req.ownerEmail)
    ensures Book(st, now, req).outcome.Ok? <==> Bookable(st, now, req, owner)
  {
    if Book(st, now, req).outcome.Ok? {
      SuccessIsBookable(st, now, req, owner);
    }
    if Bookable(st, now, req, owner) {
      BookableSucceeds(st, now, req, owner);
    }
  }

  lemma SuccessIsBookable(st: Store, now: int, req: BookingRequest, owner: nat)
    requires OwnersValid(st.owners)
    requires owner < |st.owners| && st.owners[owner].email == Lower(req.ownerEmail)
    requires Book(st, now, req).outcome.Ok?
    ensures Bookable(st, now, req, owner)
  {
    SuccessPassedChecks(st, now, req, owner);
    ChecksMakeBookable(st, now, req, owner);
  }

  /** Passing every check, with the start among the offered ones, is `Bookable`. */
  lemma ChecksMakeBookable(st: Store, now: int, req: BookingRequest, owner: nat)
    requires owner < |st.owners| && st.owners[owner].email == Lower(req.ownerEmail)
    requires ValidBookingFields(req.ownerEmail, req.inviteeName, req.inviteeEmail) && now <= req.startTime
    requires Minute(req.startTime) == 0
    requires !HasOverlap(st.appointments, owner, req.startTime, req.startTime + SlotLength)
    requires IsSlotStart(AvailableSlots(st, owner, DateOf(req.startTime)), req.startTime)
    ensures Bookable(st, now, req, owner)
  {
    OfferedStartHasWindow(st, owner, DateOf(req.startTime), req.startTime);
  }

  /** A successful booking passed every check, for the owner the address names. */
  lemma SuccessPassedChecks(st: Store, now: int, req: BookingRequest, owner: nat)
    requires OwnersValid(st.owners)
    requires owner < |st.owners| && st.owners[owner].email == Lower(req.ownerEmail)
    requires Book(st, now, req).outcome.Ok?
    ensures ValidBookingFields(req.ownerEmail, req.inviteeName, req.inviteeEmail) && now <= req.startTime
    ensures Minute(req.startTime) == 0
    ensures !HasOverlap(st.appointments, owner, req.startTime, req.startTime + SlotLength)
    ensures IsSlotStart(AvailableSlots(st, owner, DateOf(req.startTime)), req.startTime)
  {
    var a := Book(st, now, req).outcome.value;
    assert a.owner == owner by {
      assert st.owners[a.owner].email == st.owners[owner].email;
    }
  }

  /** An offered start lies on the grid of a matching window, and no appointment of the owner starts there. */
  lemma OfferedStartHasWindow(st: Store, owner: nat, date: int, start: int)
    requires IsSlotStart(AvailableSlots(st, owner, date), start)
    ensures exists w :: w in st.availability && DayMatches(w, owner, date) && OnGrid(Slot(start, start + SlotLength), w, date)
    ensures forall k :: 0 <= k < |st.appointments| && st.appointments[k].owner == owner ==>
      st.appointments[k].startTime != start
  {
    var slots := AvailableSlots(st, owner, date);
    var i :| 0 <= i < |slots| && slots[i].startTime == start;
    var w :| w in st.availability && DayMatches(w, owner, date) && OnGrid(slots[i], w, date);
    assert slots[i] == Slot(start, start + SlotLength);
  }

  lemma BookableSucceeds(st: Store, now: int, req: BookingRequest, owner: nat)
    requires OwnersValid(st.owners)
    requires Bookable(st, now, req, owner)
    ensures Book(st, now, req).outcome.Ok?
  {
    FoundOwnerIsUnique(st.owners, Lower(req.ownerEmail), owner);
    var start := req.startTime;
    var date := DateOf(start);
    var slots := AvailableSlots(st, owner, date);
    var w :| w in st.availability && DayMatches(w, owner, date) && OnGrid(Slot(start, start + SlotLength), w, date);
    AvailableSlotsComplete(st, owner, date, w, start);
    var i :| 0 <= i < |slots| && slots[i] == Slot(start, start + SlotLength);
    assert IsSlotStart(slots, start);
  }

  /**
   * Once a booking succeeds, any later request for the same owner whose hour
   * overlaps it (an identical repeat included) is refused as already booked.
   */
  lemma RepeatBookingRefused(st: Store, now: int, req: BookingRequest, now2: int, req2: BookingRequest)
    requires Book(st, now, req).outcome.Ok?
    requires ValidBookingFields(req2.ownerEmail, req2.inviteeName, req2.inviteeEmail)
    requires now2 <= req2.startTime && Minute(req2.startTime) == 0
    requires Lower(req2.ownerEmail) == Lower(req.ownerEmail)
    requires req.startTime - SlotLength < req2.startTime < req.startTime + SlotLength
    ensures Book(Book(st, now, req).store, now2, req2).outcome == Err(AlreadyBooked)
  {
    var r := Book(st, now, req);
    var a := r.outcome.value;
    var appts := r.store.appointments;
    assert r.store.owners == st.owners;
    assert FindOwner(r.store.owners, Lower(req2.ownerEmail)) == Some(a.owner);
    assert appts[|appts| - 1] == a;
    assert Overlaps(appts[|appts| - 1], a.owner, req2.startTime, req2.startTime + SlotLength);
    assert HasOverlap(appts, a.owner, req2.startTime, req2.startTime + SlotLength);
  }

  /** A booking keeps the schema's integrity rules. */
  lemma BookPreservesValid(st: Store, now: int, req: BookingRequest)
    requires Valid(st)
    ensures Valid(Book(st, now, req).store)
  {
  }

  /** No two appointments of the same owner overlap. */
  predicate NoDoubleBooking(appts: seq<Appointment>) {
    forall i, j :: 0 <= i < j < |appts| && appts[i].owner == appts[j].owner ==>
      !(appts[i].startTime < appts[j].endTime && appts[i].endTime > appts[j].startTime)
  }

  /** With bookings made one at a time, the overlap check keeps every owner's agenda free of double bookings. */
  lemma BookPreservesNoDoubleBooking(st: Store, now: int, req: BookingRequest)
    requires NoDoubleBooking(st.appointments)
    ensures NoDoubleBooking(Book(st, now, req).store.appointments)
  {
    var r := Book(st, now, req);
    if r.outcome.Ok? {
      var a := r.outcome.value;
      var appts := r.store.appointments;
      forall i, j | 0 <= i < j < |appts| && appts[i].owner == appts[j].owner
        ensures !(appts[i].startTime < appts[j].endTime && appts[i].endTime > appts[j].startTime)
      {
        if j == |appts| - 1 {
          assert appts[j] == a && appts[i] == st.appointments[i];
          assert !Overlaps(st.appointments[i], a.owner, a.startTime, a.endTime);
        } else {
          assert appts[i] == st.appointments[i] && appts[j] == st.appointments[j];
        }
      }
    }
  }

  /**
   * The slot check calls the slot resolution directly; it gives what a search
   * by the lower-cased address for the start's date would give.
   */
  lemma DirectCallMatchesSearch(st: Store, req: BookingRequest, owner: nat)
    requires 0 < |req.ownerEmail|
    requires FindOwner(st.owners, Lower(req.ownerEmail)) == Some(owner)
    ensures Search(st, Lower(req.ownerEmail), DateOf(req.startTime)) == Ok(AvailableSlots(st, owner, DateOf(req.startTime)))
  {
    LowerIdempotent(req.ownerEmail);
  }
}
