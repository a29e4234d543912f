# Meeting scheduler core in Dafny

A model of the scheduling core of a small Django calendar service. A calendar
owner publishes weekly availability windows, an invitee searches the free
one-hour slots of one date, and an invitee books one of them. The model
covers the three endpoints that do this, the tables behind them and the
serializers that check their input:

- availability setup (`AvailabilitySetupAPI.post`)
- slot search (`SearchAvailableSlotsAPI.get`)
- booking (`BookAppointmentAPI.post`)

The model uses these conventions:

- **Time.** An instant is a whole number of seconds since 1970-01-01, with no
  time zone. A date is a day number, and a time of day is in seconds. Date
  20010 is Monday 2024-10-14. The weekday follows Python's `weekday()`, and
  the weekday names are what `strftime("%A")` writes.
- **Tables.** Each table is a sequence in insertion order. An owner's key is
  its position in the owner table. Lookups return the first match, as
  `.filter(...).first()` does.
- **Clock.** Booking takes "now" as a parameter instead of reading the clock.
- **Booking's slot check.** The source re-runs the search endpoint through a
  request factory. The model calls the slot resolution directly instead.
  `Booking.DirectCallMatchesSearch` proves that the direct call gives what
  the search endpoint would give. That is also why the "search returned an
  error" branch of booking cannot be reached in the model.
- **Setup and the database.**
  - Setup writes in autocommit mode. A window refused half-way keeps every
    delete and insert made before it, and the owner created for the request.
  - Setup iterates the validated weekdays in the serializer's field order,
    monday to sunday.
  - A window repeated within one weekday violates the table's uniqueness
    rule. It ends the request with `DuplicateWindow`.
- **Serializer validation.** DRF drops the keys a serializer does not
  declare before `validate` runs, so the unknown-day check can never fire.
  `Serializers.UnknownDayIgnored` states this.

Modules, in dependency order:

- `Results`: `Option` and `Result`.
- `Time`: calendar arithmetic.
- `Text`: ASCII lower-casing.
- `Seqs`: filtering.
- `Models`: the three tables and their integrity rules.
- `Serializers`: field rules and availability validation.
- `Slots`: slot resolution and search.
- `Booking`: the booking endpoint.
- `Setup`: the setup endpoint.
- `DayNames`: how stored day names meet search, and the corrected match.
- `Scenarios`: the repository's own test cases as facts about the model.

Some behaviour of the code is easy to misread. The model follows the code:

- **Windows that end when they start.** Setup refuses a window only when it
  starts after it ends (views.py:71). A window that ends when it starts is
  stored, and it yields no slot.
- **No rollback.** Setup deletes a weekday's rows (views.py:66) before it
  checks that weekday's windows, and nothing is rolled back when a later
  window is refused. `Setup.ReplaceDaysKeepsPartialWrites` states what is
  left.
- **The 09:15–12:00 window.** The hour walk starts at the window's own start,
  so this window yields 09:15 and 10:15: two slots, the count tests.py:120
  expects.
- **Day names.** Search compares the stored day string with `strftime("%A")`
  exactly (views.py:122). Search has no past-date check (views.py:108-140).
  Both are listed under Findings.

## Model

| member | source | states |
|---|---|---|
| Text.LowerChar | appointments/views.py:116 | an upper-case ASCII letter becomes its lower-case letter, 32 code points on; every other character is kept |
| Text.Lower | appointments/views.py:116 | lower-casing keeps the length, leaves no upper-case letter, and is the identity on lower-case text |
| Text.LowerEach | appointments/views.py:116 | lower-casing a string lower-cases each character in place |
| Text.LowerCharAlike | appointments/models.py:7-9 | two characters lower-case alike exactly when they are the same letter up to ASCII case |
| Text.LowerAlike | appointments/views.py:116 | two addresses lower-case alike exactly when they have the same length and agree character by character up to ASCII case, so search finds an owner whatever the case of the address typed |
| Text.LowerIdempotent | appointments/models.py:7-9 | lower-casing an address that is already stored lower-cased changes nothing |
| Time.DateOf | appointments/views.py:124 | the date of an instant is the day whose midnight is at or before it and less than a day before it |
| Time.TimeOf | appointments/views.py:197 | an instant is its date's midnight plus its time of day |
| Time.WeekdayName | appointments/views.py:122 | the name is one of the seven names `strftime("%A")` writes; 1970-01-01 is a Thursday |
| Time.WeekdayNameCycle | appointments/views.py:122 | the names repeat every seven days, the next day has the next name in calendar order (`Time.NextWeekdayName`, Monday after Sunday), and 2024-10-14 is a Monday |
| Time.Combine | appointments/views.py:129-130 | `datetime.combine(date, time)` is undone by taking the date and the time of day |
| Time.Minute | appointments/views.py:182 | the minute of an instant is 0 exactly when its time of day is less than a minute past the hour |
| Models.SavedOwner | appointments/models.py:7-9 | saving an owner keeps the name and stores the address as `Text.Lower` of the one given: lower-case, same length, unchanged when already lower-case |
| Models.FindOwner | appointments/views.py:118 | the owner found has exactly the address and no earlier owner has it; none is found only when no owner has it |
| Models.OwnersValid | appointments/models.py:5-9 | definition: every stored address is lower-case and no two owners share one |
| Models.AvailabilityValid | appointments/models.py:14-21 | definition: every row belongs to an existing owner and no two rows agree on owner, day, start and end |
| Models.AppointmentsValid | appointments/models.py:26-27 | definition: every appointment belongs to an existing owner |
| Models.Valid | appointments/models.py:3-32 | definition: the three tables meet their integrity rules |
| Models.FoundOwnerIsUnique | appointments/models.py:5 | with unique stored addresses, the lookup finds the one owner that has the address |
| Serializers.DayIndex | appointments/serializers.py:22-28 | the position of a weekday key in the serializer's field order; 7 exactly for a string that is not a key |
| Serializers.ToWindows | appointments/serializers.py:17-19 | each checked time slot becomes a window with the same start and end, in order |
| Serializers.LookupDay | appointments/views.py:46 | a weekday is absent only when no submitted key lower-cases to it; what it finds was submitted under a key that lower-cases to it |
| Serializers.ValidOwnerName | appointments/serializers.py:6-12 | definition: the owner name is present and has 3 to 100 characters |
| Serializers.ValidOwnerEmail | appointments/serializers.py:7 | definition: the owner address is present, non-blank and at most 254 characters |
| Serializers.WellShaped | appointments/serializers.py:17-19 | definition: a time slot carries both a start and an end time |
| Serializers.AllWellShaped | appointments/serializers.py:22-28 | definition: every slot of one weekday carries both times |
| Serializers.AvailabilityAcceptable | appointments/serializers.py:21-28 | definition: every weekday that is present has only slots with both times |
| Serializers.ValidBookingFields | appointments/serializers.py:43-47 | definition: the three text fields are non-blank, the invitee name has at most 100 characters and the invitee address at most 254 |
| Serializers.LookupDayLast | appointments/views.py:46 | after keys are lower-cased, a weekday is absent exactly when no submitted key lower-cases to it; otherwise the last such entry supplies its slots |
| Serializers.ValidateAvailability | appointments/serializers.py:17-28 | validation succeeds exactly when every present weekday has only slots with both times; the result holds exactly the present weekday keys with their windows |
| Serializers.UnknownDayIgnored | appointments/serializers.py:21-36 | an entry whose key is no weekday in any letter case changes nothing, so the unknown-day check never refuses |
| Serializers.DayKeyIgnoresCase | appointments/views.py:46 | two submissions that differ only in the letter case of one key validate alike |
| Serializers.SameLookupsSameResult | appointments/serializers.py:21-28 | validation depends on a submission only through what each weekday key looks up |
| Slots.DayMatches | appointments/views.py:122 | definition: a row belongs to the owner and its day string equals the capitalised weekday name of the date |
| Slots.StartsAt | appointments/views.py:133 | definition: some appointment starts at exactly that instant |
| Slots.OnGrid | appointments/views.py:129-133 | definition: a slot is one whole hour inside the window on the date, an exact number of hours after the window opens |
| Slots.MatchingWindows | appointments/views.py:122 | exactly the owner's rows stored under the capitalised weekday name of the date |
| Seqs.FilterCount | appointments/views.py:122 | a filter keeps each row that passes as often as it is stored, and no other row |
| Slots.AppointmentsOn | appointments/views.py:124 | exactly the owner's appointments whose start falls on the date |
| Slots.StepSlots | appointments/views.py:132-138 | every slot of the hour walk lies on the window's hourly grid, ends within it, and has no appointment at its start; starts strictly increase |
| Slots.SlotsOfWindows | appointments/views.py:128-138 | every slot comes from the grid of one of the walked windows and has no appointment at its start |
| Slots.WalkWindow | appointments/views.py:132-138 | the loop emits the hour walk of one window: each hour that ends within the window, minus the booked starts, in ascending order |
| Slots.ResolveSlots | appointments/views.py:122-140 | the nested loops return exactly the free slots of the owner on the date |
| Slots.AvailableSlots | appointments/views.py:122-138 | every slot offered is a whole hour on the grid of a matching window, and no appointment of the owner starts at it |
| Slots.AvailableSlotsComplete | appointments/views.py:128-137 | every free whole hour on the grid of a matching window is offered |
| Slots.StepSlotsComplete | appointments/views.py:132-137 | the walk of a window emits every free hour that starts an exact number of hours after the window opens and ends within it |
| Slots.StepSlotsCount | appointments/views.py:132-138 | with nothing booked, a window of length L yields floor(L / 1h) slots, the k-th starting k hours after it opens |
| Slots.SlotsOfWindowsAppend | appointments/views.py:128-138 | windows are walked one after another: the slots of two runs of windows are concatenated |
| Slots.Search | appointments/views.py:108-124 | a blank address is refused; "not found" exactly when no owner has the lower-cased address; a known owner is always answered, with that owner's free slots on the date, whatever the date; a past date is never refused |
| Slots.PastDateAnswered | appointments/views.py:108-140 | for every known owner and every date before today, search answers while the corrected search refuses |
| Slots.SearchFromToday | appointments/tests.py:123-130 | corrected search: a date before today is refused, exactly then; any other date is answered as the search answers it |
| Booking.Book | appointments/views.py:163-215 | the checks run in the source's order, and the first that fails names the refusal: fields, past, unknown owner, minute, overlap (`AlreadyBooked`), not offered (`NotAvailable`). A refusal leaves the store unchanged. A success appends one one-hour appointment with an empty agenda that passed every check |
| Booking.HasOverlap | appointments/views.py:187-193 | definition: some appointment of the owner starts before the requested end and ends after the requested start |
| Booking.IsSlotStart | appointments/views.py:205 | definition: some offered slot starts at exactly the requested instant |
| Booking.Bookable | appointments/views.py:173-206 | definition: valid fields, not past, a known owner, on the hour, no overlapping appointment, and on the grid of a window of its weekday at a start no appointment has |
| Booking.BookSucceedsIff | appointments/views.py:173-215 | a booking succeeds exactly when the request is bookable: valid, not past, on the hour, no overlap, and on the grid of a window of its weekday at a start no appointment has |
| Booking.SuccessIsBookable | appointments/views.py:173-206 | a successful booking was bookable |
| Booking.SuccessPassedChecks | appointments/views.py:173-205 | a successful booking passed each check in turn: fields, not past, owner found, minute 0, no overlap, and a start the search offers |
| Booking.ChecksMakeBookable | appointments/views.py:196-206 | a request that passes those checks is bookable |
| Booking.BookableSucceeds | appointments/views.py:173-215 | a bookable request succeeds |
| Booking.OfferedStartHasWindow | appointments/views.py:196-206 | a start that search offers lies on the grid of a matching window, and no appointment of the owner starts there |
| Booking.RepeatBookingRefused | appointments/views.py:185-194 | after a success, any later request for the same owner whose hour overlaps it, an identical repeat included, that passes the field, past and minute checks is refused as already booked |
| Booking.BookPreservesValid | appointments/views.py:208-214 | a booking keeps the schema's integrity rules |
| Booking.BookPreservesNoDoubleBooking | appointments/views.py:185-194 | bookings made one at a time never leave two overlapping appointments of one owner |
| Booking.DirectCallMatchesSearch | appointments/views.py:196-200 | calling the slot resolution directly gives what the search endpoint gives for the lower-cased address and the start's date |
| Setup.RowsFor | appointments/views.py:66 | the owner's rows stored under one day string: every such row and nothing else |
| Setup.DeleteDay | appointments/views.py:66 | deletes exactly the owner's rows under that day and keeps every other row; rows stay distinct |
| Setup.WindowRows | appointments/views.py:74-79 | one row per submitted window, in order, with the owner, the day and the window's times |
| Setup.WindowGoesIn | appointments/views.py:68-79 | definition: a window goes in when it does not start after it ends, its row is not stored yet, and no earlier window of the day is the same |
| Setup.FirstRefused | appointments/views.py:68-79 | definition: window n is the first that does not go in, and every window before it goes in |
| Setup.InsertWindows | appointments/views.py:68-79 | inserts the windows in order; rows stay distinct; when none is refused the rows are the old ones followed by the new ones; when one is refused it is the first window that does not go in, the rows of the windows before it are kept, and the error is `InvalidWindow` exactly when that window starts after it ends, `DuplicateWindow` otherwise |
| Setup.InsertWindowsAccepts | appointments/views.py:68-79 | a day's windows are all inserted exactly when none starts after it ends, none repeats, and none is already stored |
| Setup.ReplaceDayRows | appointments/views.py:65-79 | replacing one weekday leaves exactly the submitted windows under it and every other (owner, day) unchanged |
| Setup.ReplaceDays | appointments/views.py:65-79 | the weekday loop, refused or not, keeps rows distinct, adds only rows of the owner, and leaves the rows of every other owner and of every day string that is not a weekday key exactly as they were |
| Setup.ReplaceDaysRows | appointments/views.py:65-79 | after the loop, each submitted weekday holds its windows and every other (owner, day) is unchanged |
| Setup.ReplaceDaysAccepts | appointments/views.py:65-79 | the loop completes exactly when every submitted weekday's windows are acceptable |
| Setup.ReplaceDaysAppends | appointments/views.py:65-79 | for an owner without rows under the weekdays still to come, the loop only appends the submitted windows |
| Setup.ReplaceDayLeavesOthers | appointments/views.py:65-79 | one weekday's replacement, refused or not, leaves every other (owner, day) alone |
| Setup.WindowsAcceptable | appointments/views.py:68-79 | definition: no window starts after it ends (views.py:71) and no window repeats, which the uniqueness rule of models.py:20-21 would refuse |
| Setup.RefusedWindowAt | appointments/views.py:65-79 | definition: weekday k is the first submitted weekday whose windows are not acceptable, and window n is its first window that starts after it ends or repeats an earlier one |
| Setup.RefusedWindowUnique | appointments/views.py:65-79 | the refused weekday and window are determined by the submission alone |
| Setup.ReplaceDaysRefusal | appointments/views.py:65-79 | the loop's error names the refused window: `InvalidWindow` when it starts after it ends, `DuplicateWindow` otherwise |
| Setup.ReplaceDaysKeepsPartialWrites | appointments/views.py:65-79 | when the loop is refused, k is the first submitted weekday with unacceptable windows and n its first bad window; the submitted weekdays before k hold their windows, weekday k holds its windows before n, and every other day of the owner keeps its rows: nothing is rolled back |
| Setup.DayHoldsInserted | appointments/views.py:66-79 | after a weekday is deleted and rows of that weekday appended, the weekday holds exactly the appended rows |
| Setup.UpsertOwner | appointments/views.py:60-63 | an existing owner is reused unchanged (its name is not updated); otherwise one owner with the name and address is appended |
| Setup.Setup | appointments/views.py:45-81 | availability errors come before owner errors, and both leave the store unchanged; then the owner is created on first contact and returned; appointments are never touched |
| Setup.SetupSucceedsIff | appointments/views.py:51-79 | setup succeeds exactly when the submission validates, the owner fields pass, and every submitted weekday's windows are acceptable |
| Setup.SetupReplacesDays | appointments/views.py:65-79 | after success, each submitted weekday of the owner holds exactly its windows in order; every other (owner, day) is as it was |
| Setup.SetupAppendsSubmitted | appointments/views.py:60-79 | for an owner with no weekday rows yet, success appends exactly the submitted windows, weekday by weekday in field order |
| Setup.SetupPreservesValid | appointments/models.py:3-21 | setup, whatever its outcome, keeps addresses lower-case and unique, rows owned and distinct |
| Setup.OwnerFieldsValid | appointments/views.py:54 | definition: the owner name and the owner address pass their rules |
| Setup.SetupRefusalKeepsWrites | appointments/views.py:60-79 | a setup refused by a window keeps the owner record; the owner's weekdays are as `Setup.ReplaceDaysKeepsPartialWrites` says for the first bad window of the first unacceptable weekday, and the error is `InvalidWindow` when that window starts after it ends, `DuplicateWindow` otherwise |
| Setup.SetupLeavesOthers | appointments/views.py:65-79 | whatever its outcome, setup never changes rows stored under a day string that is not a lower-case weekday key, nor rows of an existing owner with another address; a successful setup never changes rows of any owner but the one it returns |
| DayNames.WeekdayKey | appointments/views.py:122 | the lower-cased weekday name of a date is that weekday's key, and the name itself is never a key |
| DayNames.FindOwnerAppend | appointments/views.py:60-63 | adding an owner with a new address changes which owner an address names only for that address |
| DayNames.MatchingWindowsAreRowsFor | appointments/views.py:122 | search selects the owner's rows stored under the capitalised weekday name |
| DayNames.SetupNeverChangesSearch | appointments/views.py:65-79 | as written, no setup changes a search answer; a new owner goes from "not found" to no slots |
| DayNames.AvailableSlotsIgnoringCase | appointments/views.py:122-138 | corrected search: every slot is on the grid of a window whose day matches the weekday up to letter case, and no appointment of the owner starts at it |
| DayNames.AvailableSlotsIgnoringCaseComplete | appointments/views.py:128-137 | the corrected search offers every free on-grid hour of a window matching up to letter case |
| DayNames.IgnoringCaseOffersMore | appointments/views.py:122-138 | the corrected search offers every slot the as-written search offers |
| DayNames.SetupWindowsOfferedIgnoringCase | appointments/views.py:65-79 | after a successful setup, every free on-grid hour of a submitted window of the date's weekday is offered by the corrected search |
| Scenarios.ThreeHourWindow | appointments/tests.py:105-111 | a Monday 09:00–12:00 window offers 09:00, 10:00 and 11:00 |
| Scenarios.QuarterPastWindow | appointments/tests.py:114-120 | a Monday 09:15–12:00 window offers 09:15 and 10:15 |
| Scenarios.NoAvailability | appointments/tests.py:132-137 | an owner without windows is found and offers nothing |
| Scenarios.SearchRefusals | appointments/views.py:110-120 | an unknown address is "not found", a blank one is refused |
| Scenarios.SearchYesterdayAnswered | appointments/tests.py:123-130 | the day before "now" is answered with no slots rather than refused; the corrected search refuses it |
| Scenarios.PastEveryWindowNotOffered | appointments/views.py:132 | an hour that would run past the end of every window is never offered |
| Scenarios.BookOffered | appointments/tests.py:206-221 | 11:00 in an 11:00–12:00 window is booked for one hour with an empty agenda |
| Scenarios.BookOutsideWindow | appointments/tests.py:156-170 | 09:00 is refused as not available when the only window is 11:00–12:00 |
| Scenarios.BookAtWindowEnd | appointments/tests.py:174-186 | 12:00, the end of a 09:00–12:00 window, is refused as not available |
| Scenarios.BookQuarterPast | appointments/tests.py:190-202 | 11:15 is refused because the minute is not 0 |
| Scenarios.BookInThePast | appointments/views.py:173-174 | a start before now is refused as past |
| Scenarios.BookTwice | appointments/tests.py:223-243 | the same hour requested twice: the first is booked, the second refused as already booked |
| Scenarios.SubmissionValidates | appointments/tests.py:50-64 | the capitalised weekday keys of the sample submission are accepted and lower-cased |
| Scenarios.SetupCreatesThreeRows | appointments/tests.py:66-71 | from the store `setUp` (tests.py:19-29) leaves, holding the owner alone, setup reuses that owner and adds exactly three rows, under lower-case keys |
| Scenarios.SetupWithoutName | appointments/tests.py:74-87 | from the `setUp` store, a missing owner name is refused and nothing is written |
| Scenarios.SetupShortName | appointments/serializers.py:9-12 | from the `setUp` store, a two-letter owner name is refused and nothing is written |
| Scenarios.SetupRowsInvisibleToSearch | appointments/views.py:65-79 | after setup from the `setUp` store, searching the owner's Monday finds nothing, while the corrected search offers 09:00 |
| Scenarios.SetupKeepsPartialWrites | appointments/views.py:65-72 | on first contact, a refused Wednesday window leaves the new owner and the Monday row in place |

## Left out

- E-mail syntax (`EmailField`) is not checked. An address must only be non-blank and within its length limit, so the refusal that tests.py:89-103 expects is not modelled.
- DRF `CharField` trims whitespace, and the model does not. Only ASCII letters are lower-cased; other Unicode case mappings are left out.
- Time zones and microseconds are left out: instants are naive and counted in whole seconds. `start_time.replace(tzinfo=None)` is the identity.
- The wall clock is a parameter `now`, not read.
- HTTP status codes and response messages are left out. Each refusal is an error constructor.
- Concurrency is left out: each request runs alone and to completion. The race between booking's checks and its insert, and a crash between a delete and an insert, are not modelled.
- `ListUpcomingAppointmentsAPI` (views.py:217-258) and the appointment serializers are not part of this model.
- Column widths are left out. The owner `name` column is 50 characters (models.py:4), but the serializer allows 100; what the database does with a longer name depends on the engine. The invitee name column (models.py:28) is 100 characters, the same as its serializer.
- Cascading deletes are left out: nothing in the modelled endpoints deletes an owner.
- String comparison in the database is taken to be case-sensitive: `day_of_week=day` in views.py:66 and views.py:122 compares character for character. That holds on SQLite and PostgreSQL. On MySQL's default collation the comparison ignores case, and there the first finding does not occur.
- Querysets without `order_by` (views.py:122, views.py:128) are taken in insertion order. The database does not promise any order, so the order of the slots a search returns is the model's choice. Which slots are offered does not depend on it.
- Instants are unbounded integers. Python's `datetime` stops at 9999-12-31, where `start_time + timedelta(hours=1)` (views.py:132, views.py:185) raises `OverflowError`. The model answers normally there.
- Slot start strings are compared as instants. At whole-second resolution, the `%Y-%m-%dT%H:%M:%S` formatting is one-to-one, so this changes nothing.

## Findings

| source | as written | input that shows it | evidently intended | confidence | as-written member | corrected member |
|---|---|---|---|---|---|---|
| appointments/views.py:122 | Search selects rows whose day equals `strftime("%A")`, e.g. "Monday". Setup stores rows under the lower-cased key, e.g. "monday" (views.py:46, 65-79). | The sample submission of tests.py:50-64, then a search for the owner on Monday 2024-10-14: no slots. | Search matches the weekday without regard to letter case, so the windows set up are offered. | high on a database that compares strings case-sensitively, as SQLite and PostgreSQL do (not executed) | DayNames.SetupNeverChangesSearch | DayNames.SetupWindowsOfferedIgnoringCase |
| appointments/views.py:113-140 | Search answers for any date; it has no past-date check. | A search for yesterday answers with the owner's slots for that day; tests.py:123-130 expects a refusal. | A date before today is refused. | high (not executed) | Slots.PastDateAnswered | Slots.SearchFromToday |
