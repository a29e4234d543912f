/**
 * Worked examples on concrete stores: the behaviours the repository's own
 * test cases describe, stated as facts about the model. Date 20010 is
 * Monday 2024-10-14.
 */
module Scenarios {
  import opened Results
  import opened Time
  import opened Models
  import opened Slots
  import opened Booking
  import opened Serializers
  import opened Setup
  import opened DayNames

  const Monday: int := 20010
  const Owner: CalendarOwner := CalendarOwner("Himanshu", "himanshu.anuragi@mail.com")

  /** The instant `h` hours and `m` minutes into day `date`. */
  function At(date: int, h: int, m: int): (t: int)
    requires 0 <= h < 24 && 0 <= m < 60
    ensures DateOf(t) == date && TimeOf(t) == h * SecondsPerHour + m * SecondsPerMinute
  {
    Combine(date, h * SecondsPerHour + m * SecondsPerMinute)
  }

  function Hour(date: int, h: int, m: int): (s: Slot)
    requires 0 <= h < 23 && 0 <= m < 60
    ensures s.endTime - s.startTime == SlotLength
  {
    Slot(At(date, h, m), At(date, h + 1, m))
  }

  function WindowStore(startH: int, startM: int, endH: int): Store
    requires 0 <= startH < 24 && 0 <= startM < 60 && 0 <= endH < 24
  {
    Store([Owner], [Availability(0, "Monday", startH * SecondsPerHour + startM * SecondsPerMinute, endH * SecondsPerHour)], [])
  }

  lemma OwnerEmailIsLower()
    ensures Text.IsLowerCase(Owner.email) && Text.Lower(Owner.email) == Owner.email
  {
    assert Text.IsLowerCase(Owner.email);
  }

  lemma MondayIsMonday()
    ensures WeekdayName(Monday) == "Monday"
  {
    assert WeekdayIndex(Monday) == 0;
  }

  lemma SingleOwnerValid(st: Store)
    requires st.owners == [Owner]
    ensures OwnersValid(st.owners)
  {
    OwnerEmailIsLower();
  }

  /** Searching the owner's address finds owner 0. */
  lemma OwnerFound(st: Store, date: int)
    requires st.owners == [Owner]
    ensures Search(st, Owner.email, date) == Ok(AvailableSlots(st, 0, date))
  {
    OwnerEmailIsLower();
  }

  /** With one matching window and no appointments, the slots are that window's hour walk. */
  lemma SingleWindowSlots(st: Store, w: Availability, date: int)
    requires st.availability == [w] && st.appointments == []
    requires DayMatches(w, 0, date)
    ensures AvailableSlots(st, 0, date) == StepSlots(Combine(date, w.startTime), Combine(date, w.endTime), [])
  {
    Seqs.FilterAll(st.availability, (row: Availability) => DayMatches(row, 0, date));
    assert MatchingWindows(st.availability, 0, date) == [w];
    SlotsOfWindowsLast([w], date, []);
    assert [w][..0] == [];
  }

  /** The owner's only window, on its weekday and with nothing booked: search offers its hour walk. */
  lemma OneWindowSearch(st: Store, date: int)
    requires st.owners == [Owner] && |st.availability| == 1 && st.appointments == []
    requires DayMatches(st.availability[0], 0, date)
    ensures Search(st, Owner.email, date) ==
      Ok(StepSlots(Combine(date, st.availability[0].startTime), Combine(date, st.availability[0].endTime), []))
  {
    var w := st.availability[0];
    assert st.availability == [w];
    SingleWindowSlots(st, w, date);
    OwnerFound(st, date);
  }

  /** With nothing booked, the walk emits every hour that fits. */
  lemma FreeStep(t: int, end: int)
    requires t + SlotLength <= end
    ensures StepSlots(t, end, []) == [Slot(t, t + SlotLength)] + StepSlots(t + SlotLength, end, [])
  {
  }

  lemma WalkDone(t: int, end: int)
    requires end < t + SlotLength
    ensures StepSlots(t, end, []) == []
  {
  }

  lemma TwoFreeHours(t: int, end: int)
    requires t + 2 * SlotLength <= end < t + 3 * SlotLength
    ensures StepSlots(t, end, []) == [Slot(t, t + SlotLength), Slot(t + SlotLength, t + 2 * SlotLength)]
  {
    WalkDone(t + 2 * SlotLength, end);
    FreeStep(t + SlotLength, end);
    FreeStep(t, end);
  }

  lemma ThreeFreeHours(t: int)
    ensures StepSlots(t, t + 3 * SlotLength, []) ==
      [Slot(t, t + SlotLength), Slot(t + SlotLength, t + 2 * SlotLength), Slot(t + 2 * SlotLength, t + 3 * SlotLength)]
  {
    TwoFreeHours(t + SlotLength, t + 3 * SlotLength);
    FreeStep(t, t + 3 * SlotLength);
  }

  /** A 09:00-12:00 Monday window offers 09:00, 10:00 and 11:00. */
  lemma ThreeHourWindow()
    ensures Search(WindowStore(9, 0, 12), Owner.email, Monday) ==
      Ok([Hour(Monday, 9, 0), Hour(Monday, 10, 0), Hour(Monday, 11, 0)])
  {
    var st := WindowStore(9, 0, 12);
    MondayIsMonday();
    OneWindowSearch(st, Monday);
    var t := At(Monday, 9, 0);
    ThreeFreeHours(t);
    assert Combine(Monday, st.availability[0].startTime) == t;
    assert Combine(Monday, st.availability[0].endTime) == t + 3 * SlotLength;
  }

  /** A 09:15-12:00 window offers only the whole hours from 09:15: 09:15 and 10:15. */
  lemma QuarterPastWindow()
    ensures Search(WindowStore(9, 15, 12), Owner.email, Monday) ==
      Ok([Hour(Monday, 9, 15), Hour(Monday, 10, 15)])
  {
    var st := WindowStore(9, 15, 12);
    MondayIsMonday();
    OneWindowSearch(st, Monday);
    var t := At(Monday, 9, 15);
    TwoFreeHours(t, At(Monday, 12, 0));
    assert Combine(Monday, st.availability[0].startTime) == t;
    assert Combine(Monday, st.availability[0].endTime) == At(Monday, 12, 0);
  }

  /** An owner without availability is found and offers nothing. */
  lemma NoAvailability()
    ensures Search(Store([Owner], [], []), Owner.email, Monday) == Ok([])
  {
    OwnerFound(Store([Owner], [], []), Monday);
  }

  /** An unknown address is reported, a blank one refused. */
  lemma SearchRefusals()
    ensures Search(WindowStore(9, 0, 12), "nobody@mail.com", Monday) == Err(OwnerNotFound)
    ensures Search(WindowStore(9, 0, 12), "", Monday) == Err(InvalidSearch)
  {
    assert Text.Lower("nobody@mail.com")[0] == 'n';
  }

  /**
   * A search for the day before "now" is answered with the owner's slots
   * (none, here: a Sunday) instead of being refused; the search that refuses
   * past dates refuses it.
   */
  lemma SearchYesterdayAnswered()
    ensures Search(WindowStore(9, 0, 12), Owner.email, Monday - 1) == Ok([])
    ensures SearchFromToday(WindowStore(9, 0, 12), Now, Owner.email, Monday - 1) == Err(PastSearchDate)
  {
    var st := WindowStore(9, 0, 12);
    OwnerFound(st, Monday - 1);
    SundayIsSunday();
    NoWindowNoSlots(st, 0, Monday - 1);
  }

  lemma SundayIsSunday()
    ensures WeekdayName(Monday - 1) == "Sunday"
  {
    assert WeekdayIndex(Monday - 1) == 6;
  }

  /** An owner with no row under the date's weekday name offers nothing that date. */
  lemma NoWindowNoSlots(st: Store, owner: nat, date: int)
    requires forall w :: w in st.availability ==> !DayMatches(w, owner, date)
    ensures AvailableSlots(st, owner, date) == []
  {
  }

  function Request(startTime: int): BookingRequest {
    BookingRequest(Owner.email, "New Invitee", "newinvitee@mail.com", startTime)
  }

  /** Midnight at the start of the Monday: every booking on that day is in the future. */
  const Now: int := At(Monday, 0, 0)

  /** 11:00 in an 11:00-12:00 window is booked, for one hour, with an empty agenda. */
  lemma BookOffered()
    ensures Book(WindowStore(11, 0, 12), Now, Request(At(Monday, 11, 0))).outcome ==
      Ok(Appointment(0, "New Invitee", "newinvitee@mail.com", At(Monday, 11, 0), At(Monday, 12, 0), ""))
  {
    OnTheHour(11);
    WindowHour(WindowStore(11, 0, 12), 11, 11, 12);
    BookInWindow(WindowStore(11, 0, 12), Now, Request(At(Monday, 11, 0)));
  }

  /** Hour `h` of the Monday is in the future, on the hour, and falls on a Monday. */
  lemma OnTheHour(h: int)
    requires 0 <= h < 23
    ensures DateOf(At(Monday, h, 0)) == Monday && Minute(At(Monday, h, 0)) == 0 && Now <= At(Monday, h, 0)
    ensures WeekdayName(DateOf(At(Monday, h, 0))) == "Monday"
  {
    MondayIsMonday();
  }

  /** Hour `h` of the Monday is on the grid of the Monday window from `startH` to `endH` o'clock. */
  lemma WindowHour(st: Store, h: int, startH: int, endH: int)
    requires 0 <= startH <= h && h < endH < 24
    requires st == WindowStore(startH, 0, endH)
    ensures OnGrid(Slot(At(Monday, h, 0), At(Monday, h, 0) + SlotLength), st.availability[0], DateOf(At(Monday, h, 0)))
  {
    assert At(Monday, h, 0) - Combine(Monday, st.availability[0].startTime) == (h - startH) * SlotLength;
  }

  /** With the owner known and nothing booked, an hour on the grid of the one window of its weekday is booked. */
  lemma BookInWindow(st: Store, now: int, req: BookingRequest)
    requires st.owners == [Owner] && st.appointments == [] && |st.availability| == 1
    requires req == Request(req.startTime) && now <= req.startTime && Minute(req.startTime) == 0
    requires DayMatches(st.availability[0], 0, DateOf(req.startTime))
    requires OnGrid(Slot(req.startTime, req.startTime + SlotLength), st.availability[0], DateOf(req.startTime))
    ensures Book(st, now, req).outcome ==
      Ok(Appointment(0, req.inviteeName, req.inviteeEmail, req.startTime, req.startTime + SlotLength, DefaultAgenda))
  {
    SingleOwnerValid(st);
    WindowHourBookable(st, now, req);
    BookableSucceeds(st, now, req, 0);
    SingleOwnerAppointment(st, now, req);
  }

  /** With one owner, a booking that succeeds stores the requested hour for owner 0. */
  lemma SingleOwnerAppointment(st: Store, now: int, req: BookingRequest)
    requires |st.owners| == 1 && Book(st, now, req).outcome.Ok?
    ensures Book(st, now, req).outcome ==
      Ok(Appointment(0, req.inviteeName, req.inviteeEmail, req.startTime, req.startTime + SlotLength, DefaultAgenda))
  {
  }

  lemma WindowHourBookable(st: Store, now: int, req: BookingRequest)
    requires st.owners == [Owner] && st.appointments == [] && |st.availability| == 1
    requires req == Request(req.startTime) && now <= req.startTime && Minute(req.startTime) == 0
    requires DayMatches(st.availability[0], 0, DateOf(req.startTime))
    requires OnGrid(Slot(req.startTime, req.startTime + SlotLength), st.availability[0], DateOf(req.startTime))
    ensures Bookable(st, now, req, 0)
  {
    OwnerEmailIsLower();
    assert st.availability[0] in st.availability;
  }

  /** With the owner known and nothing booked, a start search does not offer is refused as unavailable. */
  lemma RefusedAsUnavailable(st: Store, now: int, req: BookingRequest)
    requires st.owners == [Owner] && st.appointments == []
    requires req.ownerEmail == Owner.email && req == Request(req.startTime)
    requires now <= req.startTime && Minute(req.startTime) == 0
    requires !IsSlotStart(AvailableSlots(st, 0, DateOf(req.startTime)), req.startTime)
    ensures Book(st, now, req).outcome == Err(NotAvailable)
  {
    OwnerEmailIsLower();
    assert FindOwner(st.owners, Text.Lower(req.ownerEmail)) == Some(0);
    assert !HasOverlap(st.appointments, 0, req.startTime, req.startTime + SlotLength);
  }

  /** 09:00 is refused when the only window is 11:00-12:00. */
  lemma BookOutsideWindow()
    ensures Book(WindowStore(11, 0, 12), Now, Request(At(Monday, 9, 0))).outcome == Err(NotAvailable)
  {
    var st := WindowStore(11, 0, 12);
    MondayIsMonday();
    SingleWindowSlots(st, st.availability[0], Monday);
    var t := At(Monday, 11, 0);
    assert StepSlots(t, At(Monday, 12, 0), []) == [Hour(Monday, 11, 0)] by {
      assert StepSlots(t + SlotLength, At(Monday, 12, 0), []) == [];
    }
    assert DateOf(At(Monday, 9, 0)) == Monday;
    assert AvailableSlots(st, 0, Monday) == [Hour(Monday, 11, 0)];
    RefusedAsUnavailable(st, Now, Request(At(Monday, 9, 0)));
  }

  /** The end of a 09:00-12:00 window is not a start: 12:00 is refused. */
  lemma BookAtWindowEnd()
    ensures Book(WindowStore(9, 0, 12), Now, Request(At(Monday, 12, 0))).outcome == Err(NotAvailable)
  {
    var st := WindowStore(9, 0, 12);
    var t := At(Monday, 12, 0);
    OnTheHour(12);
    assert Combine(Monday, st.availability[0].endTime) == t;
    PastEveryWindowNotOffered(st, 0, Monday, t);
    RefusedAsUnavailable(st, Now, Request(t));
  }

  /** An hour that would run past the end of every stored window is never offered. */
  lemma PastEveryWindowNotOffered(st: Store, owner: nat, date: int, t: int)
    requires forall w :: w in st.availability ==> Combine(date, w.endTime) < t + SlotLength
    ensures !IsSlotStart(AvailableSlots(st, owner, date), t)
  {
    if IsSlotStart(AvailableSlots(st, owner, date), t) {
      OfferedStartHasWindow(st, owner, date, t);
    }
  }

  /** The requests of the examples pass the field rules. */
  lemma RequestFieldsValid(t: int)
    ensures ValidBookingFields(Request(t).ownerEmail, Request(t).inviteeName, Request(t).inviteeEmail)
  {
  }

  /** 11:15 is refused before availability is looked at: the minute is not 0. */
  lemma BookQuarterPast()
    ensures Book(WindowStore(9, 0, 12), Now, Request(At(Monday, 11, 15))).outcome == Err(MisalignedStart)
  {
    var st := WindowStore(9, 0, 12);
    var t := At(Monday, 11, 15);
    assert Minute(t) == 15 && Now <= t;
    RequestFieldsValid(t);
    OwnerEmailIsLower();
    assert st.owners[0].email == Text.Lower(Request(t).ownerEmail);
  }

  /** A start before now is refused. */
  lemma BookInThePast()
    ensures Book(WindowStore(11, 0, 12), At(Monday, 12, 0), Request(At(Monday, 11, 0))).outcome == Err(PastDate)
  {
  }

  /** The same hour requested twice: the first is booked, the second refused. */
  lemma BookTwice()
    ensures var first := Book(WindowStore(11, 0, 13), Now, Request(At(Monday, 11, 0)));
      && first.outcome.Ok?
      && Book(first.store, Now, Request(At(Monday, 11, 0)).(inviteeName := "New Invitee 2")).outcome == Err(AlreadyBooked)
  {
    var st := WindowStore(11, 0, 13);
    var req := Request(At(Monday, 11, 0));
    OnTheHour(11);
    WindowHour(st, 11, 11, 13);
    BookInWindow(st, Now, req);
    RepeatBookingRefused(st, Now, req, Now, req.(inviteeName := "New Invitee 2"));
  }

  function Raw(startH: int, endH: int): RawSlot
    requires 0 <= startH < 24 && 0 <= endH < 24
  {
    RawSlot(Some(startH * SecondsPerHour), Some(endH * SecondsPerHour))
  }

  function Win(startH: int, endH: int): Window
    requires 0 <= startH < 24 && 0 <= endH < 24
  {
    Window(startH * SecondsPerHour, endH * SecondsPerHour)
  }

  /** The submission of the repository's setup test: two Monday windows and one Wednesday window, keys capitalised. */
  const Submission: seq<(string, seq<RawSlot>)> :=
    [("Monday", [Raw(9, 12), Raw(13, 15)]), ("Wednesday", [Raw(10, 12)])]

  lemma SubmissionLookups()
    ensures LookupDay(Submission, "monday") == Some([Raw(9, 12), Raw(13, 15)])
    ensures LookupDay(Submission, "wednesday") == Some([Raw(10, 12)])
    ensures forall k :: k in DayKeys && k != "monday" && k != "wednesday" ==> LookupDay(Submission, k).None?
  {
    assert Text.Lower("Monday") == "monday";
    assert Text.Lower("Wednesday") == "wednesday";
    assert Submission[..1] == [Submission[0]];
  }

  /** The capitalised keys are accepted and lower-cased; no other weekday is present. */
  lemma SubmissionValidates()
    ensures ValidateAvailability(Submission) == Some(map["monday" := [Win(9, 12), Win(13, 15)], "wednesday" := [Win(10, 12)]])
  {
    SubmissionLookups();
    assert ToWindows([Raw(9, 12), Raw(13, 15)]) == [Win(9, 12), Win(13, 15)];
    assert ToWindows([Raw(10, 12)]) == [Win(10, 12)];
    TwoDaysValidate(Submission, "monday", [Raw(9, 12), Raw(13, 15)], "wednesday", [Raw(10, 12)]);
  }

  lemma TwoDaysAcceptable(avail: seq<(string, seq<RawSlot>)>, d1: string, raw1: seq<RawSlot>, d2: string, raw2: seq<RawSlot>)
    requires LookupDay(avail, d1) == Some(raw1) && AllWellShaped(raw1)
    requires LookupDay(avail, d2) == Some(raw2) && AllWellShaped(raw2)
    requires forall k :: k in DayKeys && k != d1 && k != d2 ==> LookupDay(avail, k).None?
    ensures AvailabilityAcceptable(avail)
  {
    forall k | k in DayKeys ensures LookupDay(avail, k).None? || AllWellShaped(LookupDay(avail, k).value) {
      if k != d1 && k != d2 {
        assert LookupDay(avail, k).None?;
      }
    }
  }

  /** A submission that names exactly two weekdays, both well shaped, validates to those two days. */
  lemma TwoDaysValidate(avail: seq<(string, seq<RawSlot>)>, d1: string, raw1: seq<RawSlot>, d2: string, raw2: seq<RawSlot>)
    requires d1 in DayKeys && d2 in DayKeys && d1 != d2
    requires LookupDay(avail, d1) == Some(raw1) && AllWellShaped(raw1)
    requires LookupDay(avail, d2) == Some(raw2) && AllWellShaped(raw2)
    requires forall k :: k in DayKeys && k != d1 && k != d2 ==> LookupDay(avail, k).None?
    ensures ValidateAvailability(avail) == Some(map[d1 := ToWindows(raw1), d2 := ToWindows(raw2)])
  {
    TwoDaysAcceptable(avail, d1, raw1, d2, raw2);
    TwoDaysKeys(avail, d1, d2);
    var m := ValidateAvailability(avail).value;
    var expected := map[d1 := ToWindows(raw1), d2 := ToWindows(raw2)];
    assert m.Keys == expected.Keys;
    assert m[d1] == expected[d1] && m[d2] == expected[d2];
    assert m == expected;
  }

  lemma TwoDaysKeys(avail: seq<(string, seq<RawSlot>)>, d1: string, d2: string)
    requires AvailabilityAcceptable(avail)
    requires d1 in DayKeys && d2 in DayKeys
    requires LookupDay(avail, d1).Some? && LookupDay(avail, d2).Some?
    requires forall k :: k in DayKeys && k != d1 && k != d2 ==> LookupDay(avail, k).None?
    ensures ValidateAvailability(avail).value.Keys == {d1, d2}
  {
    var m := ValidateAvailability(avail).value;
    forall k ensures k in m <==> k in {d1, d2} {
      if k in DayKeys && k != d1 && k != d2 {
        assert LookupDay(avail, k).None?;
      }
    }
  }

  function Row(day: string, startH: int, endH: int): Availability
    requires 0 <= startH < 24 && 0 <= endH < 24
  {
    Availability(0, day, startH * SecondsPerHour, endH * SecondsPerHour)
  }

  const SampleSetup: SetupRequest := SetupRequest(Some(Owner.name), Some(Owner.email), Submission)

  const SampleDays: map<string, seq<Window>> := map["monday" := [Win(9, 12), Win(13, 15)], "wednesday" := [Win(10, 12)]]
  const SampleRows: seq<Availability> := [Row("monday", 9, 12), Row("monday", 13, 15), Row("wednesday", 10, 12)]

  /** The store every test case starts from: the owner `setUp` creates, and nothing else. */
  const SetUpStore: Store := Store([Owner], [], [])

  lemma SampleOwnerKnown()
    ensures UpsertOwner([Owner], Owner.name, Owner.email) == ([Owner], 0)
  {
    OwnerEmailIsLower();
    assert FindOwner([Owner], Owner.email) == Some(0);
  }

  lemma SampleOwnerCreated()
    ensures Text.IsLowerCase(Owner.email)
    ensures UpsertOwner([], Owner.name, Owner.email) == ([Owner], 0)
  {
    OwnerEmailIsLower();
    var none: seq<CalendarOwner> := [];
    assert none + [Owner] == [Owner];
  }

  lemma SampleRowsSubmitted(days: map<string, seq<Window>>)
    requires days == SampleDays
    ensures SubmittedRows(0, days, 0, |DayKeys|) == SampleRows
  {
    SubmittedRowsNone(0, days, 3, |DayKeys|);
    assert SubmittedRows(0, days, 2, |DayKeys|) == [Row("wednesday", 10, 12)];
    assert SubmittedRows(0, days, 1, |DayKeys|) == [Row("wednesday", 10, 12)];
  }

  /** The sample submission passes every rule, and its weekdays' windows are acceptable. */
  lemma SampleSetupAccepted(req: SetupRequest)
    requires req == SampleSetup
    ensures AvailabilityAcceptable(req.availability) && OwnerFieldsValid(req)
    ensures SubmittedDays(req) == SampleDays
    ensures forall k :: k in SubmittedDays(req) ==> WindowsAcceptable(SubmittedDays(req)[k])
    ensures Text.Lower(req.ownerEmail.value) == Owner.email
  {
    SubmissionValidates();
    OwnerEmailIsLower();
    SampleWindowsAcceptable(SubmittedDays(req));
  }

  lemma SampleWindowsAcceptable(days: map<string, seq<Window>>)
    requires days == SampleDays
    ensures forall k :: k in days ==> WindowsAcceptable(days[k])
  {
    assert days.Keys == {"monday", "wednesday"};
    assert WindowsAcceptable(days["monday"]);
    assert WindowsAcceptable(days["wednesday"]);
  }

  /** Setup for the owner `setUp` created stores three rows under lower-case keys, and no second owner. */
  lemma SetupCreatesThreeRows()
    ensures var r := Setup.Setup(SetUpStore, SampleSetup);
      && r.outcome == Ok(0)
      && r.store == Store([Owner], SampleRows, [])
  {
    var st := SetUpStore;
    SampleSetupAccepted(SampleSetup);
    SampleOwnerKnown();
    SetupSucceedsIff(st, SampleSetup);
    SetupAppendsSubmitted(st, SampleSetup);
    SampleRowsSubmitted(SampleDays);
    assert [] + SampleRows == SampleRows;
  }

  /** A missing owner name is refused before anything is written. */
  lemma SetupWithoutName()
    ensures Setup.Setup(SetUpStore, SampleSetup.(ownerName := None)) == SetupResult(SetUpStore, Err(OwnerErrors))
  {
    SubmissionValidates();
  }

  /** A two-letter owner name breaks the three-letter minimum. */
  lemma SetupShortName()
    ensures Setup.Setup(SetUpStore, SampleSetup.(ownerName := Some("Hi"))) == SetupResult(SetUpStore, Err(OwnerErrors))
  {
    SubmissionValidates();
  }

  /**
   * The day-name mismatch on the repository's own data: after the first
   * setup, searching the owner's Monday finds nothing, although the
   * case-insensitive match offers 09:00.
   */
  lemma SetupRowsInvisibleToSearch()
    ensures var r := Setup.Setup(SetUpStore, SampleSetup);
      && Search(r.store, Owner.email, Monday) == Ok([])
      && Hour(Monday, 9, 0) in AvailableSlotsIgnoringCase(r.store, 0, Monday)
  {
    SetupCreatesThreeRows();
    SampleMondayHidden(Store([Owner], SampleRows, []));
    SampleMondayOfferedIgnoringCase(SetUpStore, SampleSetup);
  }

  lemma SampleMondayHidden(st: Store)
    requires st == Store([Owner], SampleRows, [])
    ensures Search(st, Owner.email, Monday) == Ok([])
  {
    MondayIsMonday();
    OwnerFound(st, Monday);
    Seqs.FilterNone(st.availability, (row: Availability) => DayMatches(row, 0, Monday));
    assert AvailableSlots(st, 0, Monday) == [];
  }

  lemma SampleMondayOfferedIgnoringCase(st: Store, req: SetupRequest)
    requires st == SetUpStore && req == SampleSetup
    ensures Hour(Monday, 9, 0) in AvailableSlotsIgnoringCase(Setup.Setup(st, req).store, 0, Monday)
  {
    SetupCreatesThreeRows();
    SampleSetupAccepted(req);
    MondayIsMonday();
    WeekdayKey(Monday);
    assert Text.Lower(WeekdayName(Monday)) == "monday";
    assert SubmittedDays(req)["monday"][0] == Win(9, 12);
    SetupWindowsOfferedIgnoringCase(st, req, Monday, 0, At(Monday, 9, 0));
  }

  /** A submission whose Wednesday window starts after it ends. */
  const Reversed: seq<(string, seq<RawSlot>)> := [("Monday", [Raw(9, 12)]), ("Wednesday", [Raw(12, 10)])]
  const ReversedDays: map<string, seq<Window>> := map["monday" := [Win(9, 12)], "wednesday" := [Win(12, 10)]]

  lemma ReversedLookups()
    ensures LookupDay(Reversed, "monday") == Some([Raw(9, 12)])
    ensures LookupDay(Reversed, "wednesday") == Some([Raw(12, 10)])
    ensures forall k :: k in DayKeys && k != "monday" && k != "wednesday" ==> LookupDay(Reversed, k).None?
  {
    assert Text.Lower("Monday") == "monday";
    assert Text.Lower("Wednesday") == "wednesday";
    assert Reversed[..1] == [Reversed[0]];
  }

  lemma ReversedValidates()
    ensures ValidateAvailability(Reversed) == Some(ReversedDays)
  {
    ReversedLookups();
    assert ToWindows([Raw(9, 12)]) == [Win(9, 12)];
    assert ToWindows([Raw(12, 10)]) == [Win(12, 10)];
    TwoDaysValidate(Reversed, "monday", [Raw(9, 12)], "wednesday", [Raw(12, 10)]);
  }

  lemma ReversedDaysReplaced(days: map<string, seq<Window>>)
    requires days == ReversedDays
    ensures ReplaceDays([], 0, days, 0) == ([Row("monday", 9, 12)], Some(InvalidWindow))
  {
    var monday := [Row("monday", 9, 12)];
    ReversedMondayAppended(days, monday);
    ReversedWednesdayRefused(days, monday);
  }

  lemma ReversedMondayAppended(days: map<string, seq<Window>>, monday: seq<Availability>)
    requires days == ReversedDays && monday == [Row("monday", 9, 12)]
    ensures ReplaceDays([], 0, days, 0) == ReplaceDays(monday, 0, days, 2)
  {
    assert WindowsAcceptable(days["monday"]);
    ReplaceDaysAppends([], 0, days, 0, 2);
    ReversedMondayRows(days, monday);
    assert [] + monday == monday;
  }

  lemma ReversedMondayRows(days: map<string, seq<Window>>, monday: seq<Availability>)
    requires days == ReversedDays && monday == [Row("monday", 9, 12)]
    ensures SubmittedRows(0, days, 0, 2) == monday
  {
    assert SubmittedRows(0, days, 1, 2) == [];
  }

  lemma ReversedWednesdayRefused(days: map<string, seq<Window>>, monday: seq<Availability>)
    requires days == ReversedDays && monday == [Row("monday", 9, 12)]
    ensures ReplaceDays(monday, 0, days, 2) == (monday, Some(InvalidWindow))
  {
    Seqs.FilterAll(monday, NotOfDay(0, "wednesday"));
    assert InsertWindows(monday, 0, "wednesday", days["wednesday"]) == (monday, Some(InvalidWindow));
    ReplaceDaysStops(monday, 0, days, 2, monday);
  }

  /**
   * Nothing is rolled back: on first contact, a refused Wednesday window
   * leaves the owner just created and the Monday row already written.
   */
  lemma SetupKeepsPartialWrites()
    ensures Setup.Setup(Store([], [], []), SampleSetup.(availability := Reversed)) ==
      SetupResult(Store([Owner], [Row("monday", 9, 12)], []), Err(InvalidWindow))
  {
    ReversedValidates();
    SampleOwnerCreated();
    ReversedDaysReplaced(ReversedDays);
    assert Text.Lower(Owner.email) == Owner.email;
  }
}
