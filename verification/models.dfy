/**
 * The three persisted entities (calendar owners, weekly availability rows and
 * appointments) and the store that holds them, with the integrity rules the
 * database schema imposes.
 *
 * Primary keys are positions: owner `i` is `owners[i]`, and a foreign key to
 * an owner is that position. Each table keeps its rows in insertion order.
 */
module Models {
  import opened Results
  import opened Time
  import opened Text
  import opened Seqs

  datatype CalendarOwner = CalendarOwner(name: string, email: string)

  /** One recurring window: `dayOfWeek` is whatever string was stored, in whatever case. */
  datatype Availability = Availability(owner: nat, dayOfWeek: string, startTime: TimeOfDay, endTime: TimeOfDay)

  datatype Appointment = Appointment(
    owner: nat,
    inviteeName: string,
    inviteeEmail: string,
    startTime: int,
    endTime: int,
    agenda: string)

  datatype Store = Store(owners: seq<CalendarOwner>, availability: seq<Availability>, appointments: seq<Appointment>)

  /** The agenda an appointment gets when none is given. */
  const DefaultAgenda: string := ""

  /** A calendar owner as `save()` writes it: the address is lower-cased on the way in. */
  function SavedOwner(name: string, email: string): (o: CalendarOwner)
    ensures o.name == name
    ensures o.email == Lower(email)
    ensures IsLowerCase(o.email) && |o.email| == |email|
    ensures IsLowerCase(email) ==> o.email == email
  {
    CalendarOwner(name, Lower(email))
  }

  /** `CalendarOwner.objects.filter(email=email).first()`: the earliest owner with exactly that address. */
  function FindOwner(owners: seq<CalendarOwner>, email: string): (r: Option<nat>)
    ensures r.Some? ==> r.value < |owners| && owners[r.value].email == email
    ensures r.Some? ==> forall j :: 0 <= j < r.value ==> owners[j].email != email
    ensures r.None? ==> forall j :: 0 <= j < |owners| ==> owners[j].email != email
  {
    FindOwnerFrom(owners, email, 0)
  }

  function FindOwnerFrom(owners: seq<CalendarOwner>, email: string, from: nat): (r: Option<nat>)
    requires from <= |owners|
    requires forall j :: 0 <= j < from ==> owners[j].email != email
    ensures r.Some? ==> from <= r.value < |owners| && owners[r.value].email == email
    ensures r.Some? ==> forall j :: 0 <= j < r.value ==> owners[j].email != email
    ensures r.None? ==> forall j :: 0 <= j < |owners| ==> owners[j].email != email
    decreases |owners| - from
  {
    if from == |owners| then None
    else if owners[from].email == email then Some(from)
    else FindOwnerFrom(owners, email, from + 1)
  }

  /** Every address is stored lower-cased and no two owners share one (`unique=True`). */
  predicate OwnersValid(owners: seq<CalendarOwner>) {
    && (forall i :: 0 <= i < |owners| ==> IsLowerCase(owners[i].email))
    && (forall i, j :: 0 <= i < j < |owners| ==> owners[i].email != owners[j].email)
  }

  /** Every availability row belongs to an existing owner, and rows are unique
      on (owner, day, start, end) (`unique_together`). */
  predicate AvailabilityValid(rows: seq<Availability>, ownerCount: nat) {
    && (forall i :: 0 <= i < |rows| ==> rows[i].owner < ownerCount)
    && Distinct(rows)
  }

  /** Every appointment belongs to exactly one existing owner. */
  predicate AppointmentsValid(appts: seq<Appointment>, ownerCount: nat) {
    forall i :: 0 <= i < |appts| ==> appts[i].owner < ownerCount
  }

  /** The integrity rules the schema enforces. */
  predicate Valid(st: Store) {
    && OwnersValid(st.owners)
    && AvailabilityValid(st.availability, |st.owners|)
    && AppointmentsValid(st.appointments, |st.owners|)
  }

  /** With unique addresses, an owner found by address is the only one with it. */
  lemma FoundOwnerIsUnique(owners: seq<CalendarOwner>, email: string, i: nat)
    requires OwnersValid(owners)
    requires i < |owners| && owners[i].email == email
    ensures FindOwner(owners, email) == Some(i)
  {
  }
}
