/**
 * How weekday names meet. Setup stores its rows under lower-case keys
 * ("monday"), while search selects rows whose stored day equals the
 * capitalised name of the date's weekday ("Monday"), character for character.
 * The rows setup writes are therefore never selected by search, which only
 * finds rows written under the capitalised name by some other route.
 *
 * `SetupNeverChangesSearch` states the code as written; the case-insensitive
 * match (`DayMatchesIgnoringCase`) is the behaviour the documented workflow
 * (set availability, then search and book) needs, and
 * `SetupWindowsOfferedIgnoringCase` proves that it delivers it.
 */
module DayNames {
  import opened Results
  import opened Time
  import opened Text
  import opened Seqs
  import opened Models
  import opened Serializers
  import opened Slots
  import opened Setup

  /** Lower-casing a word changes at most its first letter. */
  lemma LowerInitial(s: string, t: string)
    requires 0 < |s| == |t| && LowerChar(s[0]) == t[0]
    requires s[1..] == t[1..] && IsLowerCase(s[1..])
    ensures Lower(s) == t
  {
    forall i | 0 < i < |s| ensures Lower(s)[i] == t[i] {
      assert s[i] == s[1..][i - 1] == t[i];
    }
  }

  /** Every serializer weekday key is lower-case, and every weekday name starts with a capital. */
  lemma KeysAndNames(i: nat)
    requires i < 7
    ensures IsLowerCase(DayKeys[i]) && 0 < |WeekdayNames[i]| && IsUpper(WeekdayNames[i][0])
  {
  }

  /** The lower-cased weekday name of a date is the serializer key of that weekday. */
  lemma WeekdayKey(date: int)
    ensures Lower(WeekdayName(date)) == DayKeys[WeekdayIndex(date)]
    ensures WeekdayName(date) !in DayKeys
  {
    var i := WeekdayIndex(date);
    var name := WeekdayNames[i];
    KeysAndNames(i);
    LowerInitial(name, DayKeys[i]);
    if name in DayKeys {
      var j :| 0 <= j < 7 && DayKeys[j] == name;
      KeysAndNames(j);
    }
  }

  /** Adding one owner does not change which owner an address already used names. */
  lemma FindOwnerAppend(owners: seq<CalendarOwner>, x: CalendarOwner, email: string)
    requires forall i :: 0 <= i < |owners| ==> owners[i].email != x.email
    ensures FindOwner(owners + [x], email) ==
      if x.email == email then Some(|owners|) else FindOwner(owners, email)
  {
    var r := FindOwner(owners + [x], email);
    var q := FindOwner(owners, email);
    if x.email == email {
      assert (owners + [x])[|owners|] == x;
    } else if q.Some? {
      assert (owners + [x])[q.value] == owners[q.value];
    }
  }

  /** The windows search selects are the rows stored under the capitalised weekday name. */
  lemma MatchingWindowsAreRowsFor(rows: seq<Availability>, owner: nat, date: int)
    ensures MatchingWindows(rows, owner, date) == RowsFor(rows, owner, WeekdayName(date))
  {
    FilterCongruent(rows, (row: Availability) => DayMatches(row, owner, date), OfDay(owner, WeekdayName(date)));
  }

  /**
   * As written: setup never changes what search answers. An existing
   * owner's slots stay the same on every date, and a newly created owner
   * goes from "not found" to no slots at all, whatever windows were submitted.
   */
  lemma SetupNeverChangesSearch(st: Store, req: SetupRequest, email: string, date: int)
    requires Valid(st)
    ensures var before := Search(st, email, date);
      var after := Search(Setup.Setup(st, req).store, email, date);
      after == before || (before == Err(OwnerNotFound) && after == Ok([]))
  {
    var after := Setup.Setup(st, req).store;
    var day := WeekdayName(date);
    WeekdayKey(date);
    if 0 < |email| && AvailabilityAcceptable(req.availability) && OwnerFieldsValid(req) {
      var key := Lower(email);
      forall o: nat ensures AvailableSlots(after, o, date) == AvailableSlots(st, o, date) {
        SetupLeavesOthers(st, req, o, day);
        MatchingWindowsAreRowsFor(after.availability, o, date);
        MatchingWindowsAreRowsFor(st.availability, o, date);
      }
      if after.owners != st.owners {
        var added := CalendarOwner(req.ownerName.value, Lower(req.ownerEmail.value));
        assert after.owners == st.owners + [added];
        FindOwnerAppend(st.owners, added, key);
        if added.email == key {
          var o := |st.owners|;
          assert MatchingWindows(st.availability, o, date) == [] by {
            FilterNone(st.availability, (row: Availability) => DayMatches(row, o, date));
          }
          assert AvailableSlots(st, o, date) == [];
        }
      }
    }
  }

  /** The intended match: same owner, and the stored day equals the weekday name up to letter case. */
  predicate DayMatchesIgnoringCase(row: Availability, owner: nat, date: int) {
    row.owner == owner && Lower(row.dayOfWeek) == Lower(WeekdayName(date))
  }

  /**
   * The free slots with the case-insensitive weekday match: each lies on the
   * grid of such a window, and no appointment of the owner starts at it.
   */
  function AvailableSlotsIgnoringCase(st: Store, owner: nat, date: int): (r: seq<Slot>)
    ensures forall i :: 0 <= i < |r| ==>
      exists w :: w in st.availability && DayMatchesIgnoringCase(w, owner, date) && OnGrid(r[i], w, date)
    ensures forall i, k :: 0 <= i < |r| && 0 <= k < |st.appointments| && st.appointments[k].owner == owner ==>
      st.appointments[k].startTime != r[i].startTime
  {
    var ws := Filter(st.availability, (row: Availability) => DayMatchesIgnoringCase(row, owner, date));
    var r := SlotsOfWindows(ws, date, AppointmentsOn(st.appointments, owner, date));
    assert forall i :: 0 <= i < |r| ==> exists j :: 0 <= j < |ws| && OnGrid(r[i], ws[j], date);
    FreeOfOwnerAppointments(st.appointments, owner, date, ws, r);
    r
  }

  /** A free whole hour of a window that matches the weekday up to letter case is offered by the case-insensitive search. */
  lemma AvailableSlotsIgnoringCaseComplete(st: Store, owner: nat, date: int, w: Availability, s: int)
    requires w in st.availability && DayMatchesIgnoringCase(w, owner, date)
    requires OnGrid(Slot(s, s + SlotLength), w, date)
    requires forall a :: a in st.appointments && a.owner == owner ==> a.startTime != s
    ensures Slot(s, s + SlotLength) in AvailableSlotsIgnoringCase(st, owner, date)
  {
    var matching := Filter(st.availability, (x: Availability) => DayMatchesIgnoringCase(x, owner, date));
    var booked := AppointmentsOn(st.appointments, owner, date);
    var j :| 0 <= j < |matching| && matching[j] == w;
    assert !StartsAt(booked, s) by {
      forall m | 0 <= m < |booked| ensures booked[m].startTime != s {
        assert booked[m] in st.appointments;
      }
    }
    SlotsOfWindowsComplete(matching, date, booked, j, s);
  }

  /** The corrected search loses nothing: every slot the as-written search offers, it offers too. */
  lemma IgnoringCaseOffersMore(st: Store, owner: nat, date: int, i: nat)
    requires i < |AvailableSlots(st, owner, date)|
    ensures AvailableSlots(st, owner, date)[i] in AvailableSlotsIgnoringCase(st, owner, date)
  {
    var slots := AvailableSlots(st, owner, date);
    var s := slots[i];
    var w :| w in st.availability && DayMatches(w, owner, date) && OnGrid(s, w, date);
    assert s == Slot(s.startTime, s.startTime + SlotLength);
    forall a | a in st.appointments && a.owner == owner ensures a.startTime != s.startTime {
      var k :| 0 <= k < |st.appointments| && st.appointments[k] == a;
    }
    AvailableSlotsIgnoringCaseComplete(st, owner, date, w, s.startTime);
  }

  /**
   * Corrected: after a successful setup that submits windows for the
   * weekday of `date`, every free whole hour of each submitted window is
   * offered by the case-insensitive search.
   */
  lemma SetupWindowsOfferedIgnoringCase(st: Store, req: SetupRequest, date: int, n: nat, s: int)
    requires Setup.Setup(st, req).outcome.Ok?
    requires Lower(WeekdayName(date)) in SubmittedDays(req)
    requires n < |SubmittedDays(req)[Lower(WeekdayName(date))]|
    requires var w := SubmittedDays(req)[Lower(WeekdayName(date))][n];
      OnGrid(Slot(s, s + SlotLength), Availability(Setup.Setup(st, req).outcome.value, Lower(WeekdayName(date)), w.startTime, w.endTime), date)
    requires forall a :: a in st.appointments && a.owner == Setup.Setup(st, req).outcome.value ==> a.startTime != s
    ensures Slot(s, s + SlotLength) in AvailableSlotsIgnoringCase(Setup.Setup(st, req).store, Setup.Setup(st, req).outcome.value, date)
  {
    var r := Setup.Setup(st, req);
    var owner := r.outcome.value;
    var key := Lower(WeekdayName(date));
    var ws := SubmittedDays(req)[key];
    var row := Availability(owner, key, ws[n].startTime, ws[n].endTime);
    SetupReplacesDays(st, req, owner, key);
    var stored := RowsFor(r.store.availability, owner, key);
    assert stored == WindowRows(owner, key, ws);
    assert stored[n] == row;
    assert row in r.store.availability;
    LowerIdempotent(WeekdayName(date));
    assert DayMatchesIgnoringCase(row, owner, date);
    AvailableSlotsIgnoringCaseComplete(r.store, owner, date, row, s);
  }
}
