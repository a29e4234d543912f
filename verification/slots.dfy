/**
 * Slot resolution: the free one-hour slots a calendar owner offers on one
 * date, derived from the owner's weekly availability rows for that date's
 * weekday minus the appointments already starting at a candidate instant.
 */
module Slots {
  import opened Results
  import opened Time
  import opened Text
  import opened Seqs
  import opened Models

  /** Every slot lasts exactly one hour. */
  const SlotLength: int := SecondsPerHour

  /** A concrete bookable interval `[startTime, endTime)`; derived, never stored. */
  datatype Slot = Slot(startTime: int, endTime: int)

  /** The row belongs to `owner` and its stored day is, character for character,
      the capitalised weekday name of `date`. */
  predicate DayMatches(row: Availability, owner: nat, date: int) {
    row.owner == owner && row.dayOfWeek == WeekdayName(date)
  }

  /** The owner's availability rows for the weekday of `date`, in storage order. */
  function MatchingWindows(rows: seq<Availability>, owner: nat, date: int): (ws: seq<Availability>)
    ensures forall i :: 0 <= i < |ws| ==> ws[i] in rows && DayMatches(ws[i], owner, date)
    ensures forall i :: 0 <= i < |rows| && DayMatches(rows[i], owner, date) ==> rows[i] in ws
  {
    Filter(rows, (row: Availability) => DayMatches(row, owner, date))
  }

  /** The owner's appointments whose start falls on `date`. */
  function AppointmentsOn(appts: seq<Appointment>, owner: nat, date: int): (r: seq<Appointment>)
    ensures forall i :: 0 <= i < |r| ==> r[i] in appts && r[i].owner == owner && DateOf(r[i].startTime) == date
    ensures forall i :: 0 <= i < |appts| && appts[i].owner == owner && DateOf(appts[i].startTime) == date ==>
      appts[i] in r
  {
    Filter(appts, (a: Appointment) => a.owner == owner && DateOf(a.startTime) == date)
  }

  /** Some appointment of `appts` starts exactly at instant `t`. */
  predicate StartsAt(appts: seq<Appointment>, t: int) {
    exists i :: 0 <= i < |appts| && appts[i].startTime == t
  }

  /** `s` is one whole hour of window `w` on `date`, an exact number of hours after the window opens. */
  predicate OnGrid(s: Slot, w: Availability, date: int) {
    && Combine(date, w.startTime) <= s.startTime
    && s.startTime + SlotLength <= Combine(date, w.endTime)
    && s.endTime == s.startTime + SlotLength
    && (s.startTime - Combine(date, w.startTime)) % SlotLength == 0
  }

  /**
   * The hour walk over one window: from `t`, emit `[t, t + 1h)` while it
   * ends no later than `end`, skipping a start some appointment in `booked`
   * already has, then move on one hour.
   */
  function StepSlots(t: int, end: int, booked: seq<Appointment>): (r: seq<Slot>)
    ensures forall i :: 0 <= i < |r| ==>
      && t <= r[i].startTime
      && r[i].startTime + SlotLength <= end
      && r[i].endTime == r[i].startTime + SlotLength
      && (r[i].startTime - t) % SlotLength == 0
      && !StartsAt(booked, r[i].startTime)
    ensures forall i, j :: 0 <= i < j < |r| ==> r[i].startTime < r[j].startTime
    decreases end - t
  {
    if t + SlotLength <= end then
      (if StartsAt(booked, t) then [] else [Slot(t, t + SlotLength)]) + StepSlots(t + SlotLength, end, booked)
    else []
  }

  /** The slots of several windows, window after window. */
  function SlotsOfWindows(ws: seq<Availability>, date: int, booked: seq<Appointment>): (r: seq<Slot>)
    ensures forall i :: 0 <= i < |r| ==> exists j :: 0 <= j < |ws| && OnGrid(r[i], ws[j], date)
    ensures forall i :: 0 <= i < |r| ==> !StartsAt(booked, r[i].startTime)
    decreases |ws|
  {
    if |ws| == 0 then []
    else
      var w := ws[|ws| - 1];
      var front := SlotsOfWindows(ws[..|ws| - 1], date, booked);
      var last := StepSlots(Combine(date, w.startTime), Combine(date, w.endTime), booked);
      assert forall i :: 0 <= i < |front| ==> exists j :: 0 <= j < |ws| && OnGrid(front[i], ws[j], date) by {
        forall i | 0 <= i < |front| ensures exists j :: 0 <= j < |ws| && OnGrid(front[i], ws[j], date) {
          var j :| 0 <= j < |ws| - 1 && OnGrid(front[i], ws[..|ws| - 1][j], date);
          assert ws[..|ws| - 1][j] == ws[j];
        }
      }
      assert forall i :: 0 <= i < |last| ==> OnGrid(last[i], ws[|ws| - 1], date);
      front + last
  }

  /**
   * The free slots of `owner` on `date` (`SearchAvailableSlotsAPI.get` once
   * the owner is known): every window of the date's weekday walked in storage
   * order, minus the starts of the owner's appointments on that date.
   */
  function AvailableSlots(st: Store, owner: nat, date: int): (r: seq<Slot>)
    ensures forall i :: 0 <= i < |r| ==>
      exists w :: w in st.availability && DayMatches(w, owner, date) && OnGrid(r[i], w, date)
    ensures forall i, k :: 0 <= i < |r| && 0 <= k < |st.appointments| && st.appointments[k].owner == owner ==>
      st.appointments[k].startTime != r[i].startTime
  {
    var ws := MatchingWindows(st.availability, owner, date);
    var booked := AppointmentsOn(st.appointments, owner, date);
    var r := SlotsOfWindows(ws, date, booked);
    FreeOfOwnerAppointments(st.appointments, owner, date, ws, r);
    r
  }

  /** Slots walked from windows of `date`, free of the owner's appointments on that date, are free of all of them. */
  lemma FreeOfOwnerAppointments(appts: seq<Appointment>, owner: nat, date: int, ws: seq<Availability>, r: seq<Slot>)
    requires r == SlotsOfWindows(ws, date, AppointmentsOn(appts, owner, date))
    ensures forall i, k :: 0 <= i < |r| && 0 <= k < |appts| && appts[k].owner == owner ==>
      appts[k].startTime != r[i].startTime
  {
    var booked := AppointmentsOn(appts, owner, date);
    forall i, k | 0 <= i < |r| && 0 <= k < |appts| && appts[k].owner == owner
      ensures appts[k].startTime != r[i].startTime
    {
      var j :| 0 <= j < |ws| && OnGrid(r[i], ws[j], date);
      assert DateOf(r[i].startTime) == date;
      var a := appts[k];
      if DateOf(a.startTime) == date {
        assert a in booked;
        var n :| 0 <= n < |booked| && booked[n] == a;
        assert !StartsAt(booked, r[i].startTime);
      }
    }
  }

  /**
   * The nested loops of the search endpoint, step by step: for each matching
   * window in storage order, walk its hours and append each free one.
   */
  method ResolveSlots(st: Store, owner: nat, date: int) returns (slots: seq<Slot>)
    ensures slots == AvailableSlots(st, owner, date)
  {
    var windows := MatchingWindows(st.availability, owner, date);
    var appointments := AppointmentsOn(st.appointments, owner, date);
    slots := [];
    var i := 0;
    while i < |windows|
      invariant 0 <= i <= |windows|
      invariant slots == SlotsOfWindows(windows[..i], date, appointments)
    {
      var w := windows[i];
      var emitted := WalkWindow(Combine(date, w.startTime), Combine(date, w.endTime), appointments);
      SlotsOfWindowsStep(windows, i, date, appointments);
      slots := slots + emitted;
      i := i + 1;
    }
    assert windows[..|windows|] == windows;
  }

  /** The inner loop of the search endpoint: the hour walk over one window, as a loop. */
  method WalkWindow(start: int, end: int, appointments: seq<Appointment>) returns (emitted: seq<Slot>)
    ensures emitted == StepSlots(start, end, appointments)
  {
    emitted := [];
    var t := start;
    while t + SlotLength <= end
      invariant emitted + StepSlots(t, end, appointments) == StepSlots(start, end, appointments)
      decreases end - t
    {
      WalkStep(emitted, t, end, appointments);
      if !StartsAt(appointments, t) {
        emitted := emitted + [Slot(t, t + SlotLength)];
      }
      t := t + SlotLength;
    }
    assert emitted + StepSlots(t, end, appointments) == emitted;
  }

  /** One turn of the hour walk keeps "emitted so far, then the rest of the walk" equal to the whole walk. */
  lemma WalkStep(emitted: seq<Slot>, t: int, end: int, booked: seq<Appointment>)
    requires t + SlotLength <= end
    ensures (if StartsAt(booked, t) then emitted else emitted + [Slot(t, t + SlotLength)]) + StepSlots(t + SlotLength, end, booked)
      == emitted + StepSlots(t, end, booked)
  {
    var rest := StepSlots(t + SlotLength, end, booked);
    if StartsAt(booked, t) {
      assert StepSlots(t, end, booked) == [] + rest;
    } else {
      assert StepSlots(t, end, booked) == [Slot(t, t + SlotLength)] + rest;
      assert emitted + [Slot(t, t + SlotLength)] + rest == emitted + ([Slot(t, t + SlotLength)] + rest);
    }
  }

  lemma SlotsOfWindowsStep(ws: seq<Availability>, i: nat, date: int, booked: seq<Appointment>)
    requires i < |ws|
    ensures SlotsOfWindows(ws[..i + 1], date, booked) ==
      SlotsOfWindows(ws[..i], date, booked) + StepSlots(Combine(date, ws[i].startTime), Combine(date, ws[i].endTime), booked)
  {
    assert ws[..i + 1][..i] == ws[..i];
  }

  /** A free whole hour of a window, an exact number of hours after it opens, is emitted by the walk. */
  lemma {:induction false} StepSlotsComplete(t: int, end: int, booked: seq<Appointment>, s: int)
    requires t <= s && (s - t) % SlotLength == 0 && s + SlotLength <= end
    requires !StartsAt(booked, s)
    ensures Slot(s, s + SlotLength) in StepSlots(t, end, booked)
    decreases s - t
  {
    if s != t {
      StepSlotsComplete(t + SlotLength, end, booked, s);
    }
  }

  /**
   * With nothing booked inside the window, a window of length L yields
   * exactly floor(L / 1h) slots, the k-th starting k hours after it opens.
   */
  lemma {:induction false} StepSlotsCount(t: int, end: int, booked: seq<Appointment>)
    requires forall i :: 0 <= i < |booked| ==> !(t <= booked[i].startTime < end)
    ensures |StepSlots(t, end, booked)| == if t <= end then (end - t) / SlotLength else 0
    ensures forall k :: 0 <= k < |StepSlots(t, end, booked)| ==>
      StepSlots(t, end, booked)[k] == Slot(t + k * SlotLength, t + k * SlotLength + SlotLength)
    decreases end - t
  {
    if t + SlotLength <= end {
      StepSlotsCount(t + SlotLength, end, booked);
      assert !StartsAt(booked, t);
      assert (end - t) / SlotLength == 1 + (end - (t + SlotLength)) / SlotLength;
    }
  }

  /** Windows are walked one after the other: the slots of two runs of windows are concatenated. */
  lemma {:induction false} SlotsOfWindowsAppend(ws: seq<Availability>, vs: seq<Availability>, date: int, booked: seq<Appointment>)
    ensures SlotsOfWindows(ws + vs, date, booked) == SlotsOfWindows(ws, date, booked) + SlotsOfWindows(vs, date, booked)
    decreases |vs|
  {
    if |vs| == 0 {
      assert ws + vs == ws;
    } else {
      var init := vs[..|vs| - 1];
      var v := vs[|vs| - 1];
      var last := StepSlots(Combine(date, v.startTime), Combine(date, v.endTime), booked);
      assert (ws + vs)[..|ws + vs| - 1] == ws + init;
      assert (ws + vs)[|ws + vs| - 1] == v;
      SlotsOfWindowsLast(ws + vs, date, booked);
      SlotsOfWindowsLast(vs, date, booked);
      SlotsOfWindowsAppend(ws, init, date, booked);
      AppendAssociates(SlotsOfWindows(ws, date, booked), SlotsOfWindows(init, date, booked), last);
    }
  }

  /** The last window is walked last. */
  lemma SlotsOfWindowsLast(ws: seq<Availability>, date: int, booked: seq<Appointment>)
    requires |ws| > 0
    ensures SlotsOfWindows(ws, date, booked) == SlotsOfWindows(ws[..|ws| - 1], date, booked) +
      StepSlots(Combine(date, ws[|ws| - 1].startTime), Combine(date, ws[|ws| - 1].endTime), booked)
  {
  }

  lemma {:induction false} SlotsOfWindowsComplete(ws: seq<Availability>, date: int, booked: seq<Appointment>, j: nat, s: int)
    requires j < |ws| && OnGrid(Slot(s, s + SlotLength), ws[j], date)
    requires !StartsAt(booked, s)
    ensures Slot(s, s + SlotLength) in SlotsOfWindows(ws, date, booked)
    decreases |ws|
  {
    var w := ws[|ws| - 1];
    var init := ws[..|ws| - 1];
    if j == |ws| - 1 {
      StepSlotsComplete(Combine(date, w.startTime), Combine(date, w.endTime), booked, s);
    } else {
      assert init[j] == ws[j];
      SlotsOfWindowsComplete(init, date, booked, j, s);
    }
  }

  /**
   * The converse of the containment promised by `AvailableSlots`: every whole
   * hour of a matching window, an exact number of hours after it opens, that
   * no appointment of the owner starts at, is offered.
   */
  lemma AvailableSlotsComplete(st: Store, owner: nat, date: int, w: Availability, s: int)
    requires w in st.availability && DayMatches(w, owner, date)
    requires OnGrid(Slot(s, s + SlotLength), w, date)
    requires forall a :: a in st.appointments && a.owner == owner ==> a.startTime != s
    ensures Slot(s, s + SlotLength) in AvailableSlots(st, owner, date)
  {
    var ws := MatchingWindows(st.availability, owner, date);
    var booked := AppointmentsOn(st.appointments, owner, date);
    var j :| 0 <= j < |ws| && ws[j] == w;
    assert !StartsAt(booked, s) by {
      forall n | 0 <= n < |booked| ensures booked[n].startTime != s {
        assert booked[n] in st.appointments;
      }
    }
    SlotsOfWindowsComplete(ws, date, booked, j, s);
  }

  datatype SearchError =
    | InvalidSearch   // the address is blank
    | OwnerNotFound   // no owner has the lower-cased address
    | PastSearchDate  // the date lies before today (only `SearchFromToday` reports it)

  /**
   * `SearchAvailableSlotsAPI.get`: a blank address is refused, the address is
   * lower-cased and looked up, and an unknown owner is reported; otherwise
   * the owner's free slots on `date`. A date in the past is NOT refused.
   */
  function Search(st: Store, email: string, date: int): (r: Result<seq<Slot>, SearchError>)
    ensures |email| == 0 <==> r == Err(InvalidSearch)
    ensures r == Err(OwnerNotFound) <==>
      0 < |email| && forall i :: 0 <= i < |st.owners| ==> st.owners[i].email != Lower(email)
    ensures r.Ok? <==> 0 < |email| && exists i :: 0 <= i < |st.owners| && st.owners[i].email == Lower(email)
    ensures r != Err(PastSearchDate)
    ensures r.Ok? ==>
      exists o :: (0 <= o < |st.owners| && st.owners[o].email == Lower(email) &&
                   r.value == AvailableSlots(st, o, date))
  {
    if |email| == 0 then Err(InvalidSearch)
    else
      match FindOwner(st.owners, Lower(email))
      case None => Err(OwnerNotFound)
      case Some(o) => Ok(AvailableSlots(st, o, date))
  }

  /**
   * The search with the past-date refusal the endpoint's callers expect: a
   * date before the date of `now` is refused after the field rules, before
   * the owner is looked up; any other date is answered as `Search` answers it.
   */
  function SearchFromToday(st: Store, now: int, email: string, date: int): (r: Result<seq<Slot>, SearchError>)
    ensures |email| == 0 ==> r == Err(InvalidSearch)
    ensures 0 < |email| ==> (r == Err(PastSearchDate) <==> date < DateOf(now))
    ensures DateOf(now) <= date ==> r == Search(st, email, date)
  {
    if |email| == 0 then Err(InvalidSearch)
    else if date < DateOf(now) then Err(PastSearchDate)
    else Search(st, email, date)
  }

  /**
   * The discrepancy on every input: for a known owner and a date before
   * today, search answers with that date's slots, where the search that
   * refuses past dates refuses.
   */
  lemma PastDateAnswered(st: Store, now: int, email: string, date: int)
    requires 0 < |email| && date < DateOf(now)
    requires exists i :: 0 <= i < |st.owners| && st.owners[i].email == Lower(email)
    ensures Search(st, email, date).Ok?
    ensures SearchFromToday(st, now, email, date) == Err(PastSearchDate)
  {
  }
}
