/**
 * Availability setup: validate the submission, create the owner on first
 * contact (by lower-cased address), then, weekday by weekday, delete the
 * owner's stored windows for that weekday and insert the submitted ones.
 * Nothing is wrapped in a transaction: a window refused half-way keeps every
 * delete and insert made before it.
 */
module Setup {
  import opened Results
  import opened Time
  import opened Text
  import opened Seqs
  import opened Models
  import opened Serializers

  /** The submission: owner fields (missing is `None`) and the availability entries in submission order. */
  datatype SetupRequest = SetupRequest(
    ownerName: Option<string>,
    ownerEmail: Option<string>,
    availability: seq<(string, seq<RawSlot>)>)

  datatype SetupError =
    | AvailabilityErrors  // a present weekday has a slot missing a field
    | OwnerErrors         // the owner name or address breaks its rule
    | InvalidWindow       // a window starts after it ends
    | DuplicateWindow     // the same window twice for one weekday: the uniqueness rule refuses the row

  /** The store afterwards (partial writes included) and the owner's key, or the refusal. */
  datatype SetupResult = SetupResult(store: Store, outcome: Result<nat, SetupError>)

  /** The test "row belongs to `owner` and is stored under exactly `day`". */
  function OfDay(owner: nat, day: string): Availability -> bool {
    (row: Availability) => row.owner == owner && row.dayOfWeek == day
  }

  /** The test "row is not one of `owner`'s rows stored under `day`". */
  function NotOfDay(owner: nat, day: string): Availability -> bool {
    (row: Availability) => !(row.owner == owner && row.dayOfWeek == day)
  }

  /** The owner's stored rows for one day string, in storage order. */
  function RowsFor(rows: seq<Availability>, owner: nat, day: string): (r: seq<Availability>)
    ensures forall i :: 0 <= i < |r| ==> r[i] in rows && r[i].owner == owner && r[i].dayOfWeek == day
    ensures forall i :: 0 <= i < |rows| && rows[i].owner == owner && rows[i].dayOfWeek == day ==> rows[i] in r
  {
    Filter(rows, OfDay(owner, day))
  }

  /** `Availability.objects.filter(calendar_owner=owner, day_of_week=day).delete()`. */
  function DeleteDay(rows: seq<Availability>, owner: nat, day: string): (r: seq<Availability>)
    ensures forall i :: 0 <= i < |r| ==> r[i] in rows && !(r[i].owner == owner && r[i].dayOfWeek == day)
    ensures forall i :: 0 <= i < |rows| && !(rows[i].owner == owner && rows[i].dayOfWeek == day) ==> rows[i] in r
    ensures Distinct(rows) ==> Distinct(r)
  {
    FilterDistinct(rows, NotOfDay(owner, day));
    Filter(rows, NotOfDay(owner, day))
  }

  /** The rows the submitted windows of one day become. */
  function WindowRows(owner: nat, day: string, ws: seq<Window>): (r: seq<Availability>)
    ensures |r| == |ws|
    ensures forall i :: 0 <= i < |r| ==>
      r[i].owner == owner && r[i].dayOfWeek == day && r[i].startTime == ws[i].startTime && r[i].endTime == ws[i].endTime
  {
    seq(|ws|, i requires 0 <= i < |ws| => Availability(owner, day, ws[i].startTime, ws[i].endTime))
  }

  /** Every window of one day is accepted: none starts after it ends (equal is fine) and none repeats. */
  predicate WindowsAcceptable(ws: seq<Window>) {
    (forall i :: 0 <= i < |ws| ==> ws[i].startTime <= ws[i].endTime) && Distinct(ws)
  }

  /**
   * Window `i` goes in once the windows before it are in: it does not start
   * after it ends, its row is not stored already, and no earlier window of
   * the day is the same.
   */
  predicate WindowGoesIn(rows: seq<Availability>, owner: nat, day: string, ws: seq<Window>, i: nat)
    requires i < |ws|
  {
    && ws[i].startTime <= ws[i].endTime
    && Availability(owner, day, ws[i].startTime, ws[i].endTime) !in rows
    && ws[i] !in ws[..i]
  }

  /** Window `n` is the first window of `ws` that does not go in. */
  predicate FirstRefused(rows: seq<Availability>, owner: nat, day: string, ws: seq<Window>, n: nat) {
    && n < |ws|
    && (forall i :: 0 <= i < n ==> WindowGoesIn(rows, owner, day, ws, i))
    && !WindowGoesIn(rows, owner, day, ws, n)
  }

  /**
   * The inner loop of the setup endpoint for one day: insert the windows in
   * order; stop at the first one that starts after it ends (`InvalidWindow`),
   * or whose row is already stored (`DuplicateWindow`, the uniqueness rule's
   * `IntegrityError`). The rows inserted before the refusal stay.
   */
  function InsertWindows(rows: seq<Availability>, owner: nat, day: string, ws: seq<Window>): (r: (seq<Availability>, Option<SetupError>))
    ensures r.1.None? ==> r.0 == rows + WindowRows(owner, day, ws)
    ensures r.1.Some? ==> exists n: nat ::
      && FirstRefused(rows, owner, day, ws, n)
      && r.0 == rows + WindowRows(owner, day, ws[..n])
      && (r.1 == Some(InvalidWindow) <==> ws[n].startTime > ws[n].endTime)
      && (r.1 == Some(DuplicateWindow) <==> ws[n].startTime <= ws[n].endTime)
    ensures Distinct(rows) ==> Distinct(r.0)
    ensures forall i :: 0 <= i < |r.0| ==> r.0[i] in rows || (r.0[i].owner == owner && r.0[i].dayOfWeek == day)
    decreases |ws|
  {
    if |ws| == 0 then (rows, None)
    else if ws[0].startTime > ws[0].endTime then
      RefusedAtFirstWindow(rows, owner, day, ws);
      (rows, Some(InvalidWindow))
    else
      var row := Availability(owner, day, ws[0].startTime, ws[0].endTime);
      if row in rows then
        RefusedAtFirstWindow(rows, owner, day, ws);
        (rows, Some(DuplicateWindow))
      else
        InsertStepFacts(rows, owner, day, ws);
        assert WindowRows(owner, day, ws) == [row] + WindowRows(owner, day, ws[1..]);
        var rest := InsertWindows(rows + [row], owner, day, ws[1..]);
        RefusedLater(rows, rows + [row], owner, day, ws, ws[1..], rest.0, rest.1);
        rest
  }

  /** A first window that does not go in is the first refused one, and nothing was inserted before it. */
  lemma RefusedAtFirstWindow(rows: seq<Availability>, owner: nat, day: string, ws: seq<Window>)
    requires |ws| > 0 && !WindowGoesIn(rows, owner, day, ws, 0)
    ensures FirstRefused(rows, owner, day, ws, 0)
    ensures rows + WindowRows(owner, day, ws[..0]) == rows
  {
    assert WindowRows(owner, day, ws[..0]) == [];
  }

  /** Whether a later window goes in does not change when the first window's row is stored and the first window dropped. */
  lemma GoesInShift(rows: seq<Availability>, owner: nat, day: string, ws: seq<Window>, i: nat)
    requires 1 <= i < |ws|
    ensures WindowGoesIn(rows + [Availability(owner, day, ws[0].startTime, ws[0].endTime)], owner, day, ws[1..], i - 1)
      <==> WindowGoesIn(rows, owner, day, ws, i)
  {
    assert ws[1..][i - 1] == ws[i];
    assert ws[1..][..i - 1] == ws[1..i];
    assert ws[..i] == [ws[0]] + ws[1..i];
  }

  /** A refusal after the first window was inserted is a refusal of `ws` one position further on. */
  lemma RefusedLater(rows: seq<Availability>, rows1: seq<Availability>, owner: nat, day: string, ws: seq<Window>, tail: seq<Window>,
                     rest: seq<Availability>, err: Option<SetupError>)
    requires |ws| > 0 && WindowGoesIn(rows, owner, day, ws, 0)
    requires rows1 == rows + [Availability(owner, day, ws[0].startTime, ws[0].endTime)] && tail == ws[1..]
    requires err.Some? ==> exists n: nat ::
      && FirstRefused(rows1, owner, day, tail, n)
      && rest == rows1 + WindowRows(owner, day, tail[..n])
      && (err == Some(InvalidWindow) <==> tail[n].startTime > tail[n].endTime)
      && (err == Some(DuplicateWindow) <==> tail[n].startTime <= tail[n].endTime)
    ensures err.Some? ==> exists n: nat ::
      && FirstRefused(rows, owner, day, ws, n)
      && rest == rows + WindowRows(owner, day, ws[..n])
      && (err == Some(InvalidWindow) <==> ws[n].startTime > ws[n].endTime)
      && (err == Some(DuplicateWindow) <==> ws[n].startTime <= ws[n].endTime)
  {
    if err.Some? {
      var n: nat :| && FirstRefused(rows1, owner, day, tail, n)
        && rest == rows1 + WindowRows(owner, day, tail[..n])
        && (err == Some(InvalidWindow) <==> tail[n].startTime > tail[n].endTime)
        && (err == Some(DuplicateWindow) <==> tail[n].startTime <= tail[n].endTime);
      forall i | 0 <= i < n + 1 ensures WindowGoesIn(rows, owner, day, ws, i) {
        if i > 0 {
          GoesInShift(rows, owner, day, ws, i);
        }
      }
      GoesInShift(rows, owner, day, ws, n + 1);
      assert tail[n] == ws[n + 1];
      WindowRowsPrefix(owner, day, ws, n);
      Seqs.AppendAssociates(rows, [Availability(owner, day, ws[0].startTime, ws[0].endTime)], WindowRows(owner, day, tail[..n]));
      assert FirstRefused(rows, owner, day, ws, n + 1);
    }
  }

  /** The windows of a day are all inserted exactly when they are acceptable and none is stored already. */
  lemma {:induction false} InsertWindowsAccepts(rows: seq<Availability>, owner: nat, day: string, ws: seq<Window>)
    ensures InsertWindows(rows, owner, day, ws).1.None? <==>
      WindowsAcceptable(ws) && forall i :: 0 <= i < |ws| ==> Availability(owner, day, ws[i].startTime, ws[i].endTime) !in rows
    decreases |ws|
  {
    if |ws| > 0 && ws[0].startTime <= ws[0].endTime {
      var row := Availability(owner, day, ws[0].startTime, ws[0].endTime);
      if row !in rows {
        InsertStepFacts(rows, owner, day, ws);
        InsertWindowsAccepts(rows + [row], owner, day, ws[1..]);
      }
    }
  }

  /** A window that is accepted is inserted, and the rest follow it. */
  lemma InsertWindowsUnfold(rows: seq<Availability>, owner: nat, day: string, ws: seq<Window>)
    requires |ws| > 0 && ws[0].startTime <= ws[0].endTime
    requires Availability(owner, day, ws[0].startTime, ws[0].endTime) !in rows
    ensures InsertWindows(rows, owner, day, ws) ==
      InsertWindows(rows + [Availability(owner, day, ws[0].startTime, ws[0].endTime)], owner, day, ws[1..])
  {
  }

  lemma WindowRowsPrefix(owner: nat, day: string, ws: seq<Window>, n: nat)
    requires n < |ws|
    ensures WindowRows(owner, day, ws[..n + 1]) ==
      [Availability(owner, day, ws[0].startTime, ws[0].endTime)] + WindowRows(owner, day, ws[1..][..n])
  {
    assert ws[..n + 1] == [ws[0]] + ws[1..][..n];
  }

  /** How the acceptance condition and duplicate-freedom decompose over the first window. */
  lemma InsertStepFacts(rows: seq<Availability>, owner: nat, day: string, ws: seq<Window>)
    requires |ws| > 0
    requires ws[0].startTime <= ws[0].endTime
    requires Availability(owner, day, ws[0].startTime, ws[0].endTime) !in rows
    ensures var row := Availability(owner, day, ws[0].startTime, ws[0].endTime);
      (WindowsAcceptable(ws) && forall i :: 0 <= i < |ws| ==> Availability(owner, day, ws[i].startTime, ws[i].endTime) !in rows)
      <==>
      (WindowsAcceptable(ws[1..]) && forall i :: 0 <= i < |ws[1..]| ==>
        Availability(owner, day, ws[1..][i].startTime, ws[1..][i].endTime) !in rows + [row])
    ensures Distinct(rows) ==> Distinct(rows + [Availability(owner, day, ws[0].startTime, ws[0].endTime)])
  {
    var row := Availability(owner, day, ws[0].startTime, ws[0].endTime);
    var tail := ws[1..];
    if WindowsAcceptable(tail) && forall i :: 0 <= i < |tail| ==>
        Availability(owner, day, tail[i].startTime, tail[i].endTime) !in rows + [row] {
      forall i, j | 0 <= i < j < |ws| ensures ws[i] != ws[j] {
        if i == 0 {
          assert tail[j - 1] == ws[j];
          assert Availability(owner, day, ws[j].startTime, ws[j].endTime) != row;
        } else {
          assert tail[i - 1] == ws[i] && tail[j - 1] == ws[j];
        }
      }
      forall i | 0 <= i < |ws| ensures ws[i].startTime <= ws[i].endTime {
        if i > 0 { assert tail[i - 1] == ws[i]; }
      }
      forall i | 0 <= i < |ws| ensures Availability(owner, day, ws[i].startTime, ws[i].endTime) !in rows {
        if i > 0 { assert tail[i - 1] == ws[i]; }
      }
    }
    if WindowsAcceptable(ws) && forall i :: 0 <= i < |ws| ==> Availability(owner, day, ws[i].startTime, ws[i].endTime) !in rows {
      forall i | 0 <= i < |tail| ensures Availability(owner, day, tail[i].startTime, tail[i].endTime) !in rows + [row] {
        assert tail[i] == ws[i + 1] && ws[i + 1] != ws[0];
      }
      forall i, j | 0 <= i < j < |tail| ensures tail[i] != tail[j] {
        assert tail[i] == ws[i + 1] && tail[j] == ws[j + 1];
      }
    }
    if Distinct(rows) {
      var r := rows + [row];
      forall i, j | 0 <= i < j < |r| ensures r[i] != r[j] {
        if j == |rows| {
          assert r[i] == rows[i];
        } else {
          assert r[i] == rows[i] && r[j] == rows[j];
        }
      }
    }
  }

  /** Replacing one day of one owner: that day now holds exactly the submitted windows, every other (owner, day) is untouched. */
  lemma ReplaceDayRows(rows: seq<Availability>, owner: nat, day: string, ws: seq<Window>, o: nat, d: string)
    requires InsertWindows(DeleteDay(rows, owner, day), owner, day, ws).1.None?
    ensures RowsFor(InsertWindows(DeleteDay(rows, owner, day), owner, day, ws).0, o, d) ==
      if o == owner && d == day then WindowRows(owner, day, ws) else RowsFor(rows, o, d)
  {
    var kept := DeleteDay(rows, owner, day);
    var added := WindowRows(owner, day, ws);
    FilterAppend(kept, added, OfDay(o, d));
    if o == owner && d == day {
      FilterNone(kept, OfDay(o, d));
      FilterAll(added, OfDay(o, d));
    } else {
      FilterOfFilter(rows, NotOfDay(owner, day), OfDay(o, d));
      FilterNone(added, OfDay(o, d));
    }
  }

  /**
   * The outer loop of the setup endpoint: the validated weekdays, in the
   * serializer's field order from position `from`, each replaced in turn;
   * the first refused window ends the loop.
   */
  function ReplaceDays(rows: seq<Availability>, owner: nat, days: map<string, seq<Window>>, from: nat): (r: (seq<Availability>, Option<SetupError>))
    requires from <= |DayKeys|
    ensures Distinct(rows) ==> Distinct(r.0)
    ensures forall i :: 0 <= i < |r.0| ==> r.0[i] in rows || r.0[i].owner == owner
    ensures forall o: nat, d: string :: o != owner || d !in DayKeys ==> RowsFor(r.0, o, d) == RowsFor(rows, o, d)
    decreases |DayKeys| - from
  {
    if from == |DayKeys| then (rows, None)
    else if DayKeys[from] !in days then ReplaceDays(rows, owner, days, from + 1)
    else
      var day := DayKeys[from];
      var step := InsertWindows(DeleteDay(rows, owner, day), owner, day, days[day]);
      ReplaceDayLeavesAll(rows, owner, day, days[day]);
      if step.1.Some? then step else ReplaceDays(step.0, owner, days, from + 1)
  }

  /** After all days are replaced, each submitted weekday holds its windows and every other (owner, day) is untouched. */
  lemma {:induction false} ReplaceDaysRows(rows: seq<Availability>, owner: nat, days: map<string, seq<Window>>, from: nat, o: nat, d: string)
    requires from <= |DayKeys|
    requires ReplaceDays(rows, owner, days, from).1.None?
    ensures RowsFor(ReplaceDays(rows, owner, days, from).0, o, d) ==
      if o == owner && d in days && from <= DayIndex(d) < |DayKeys| then WindowRows(owner, d, days[d]) else RowsFor(rows, o, d)
    decreases |DayKeys| - from
  {
    if from < |DayKeys| {
      var day := DayKeys[from];
      assert DayIndex(day) == from;
      ReplaceDaysUnfold(rows, owner, days, from);
      if day !in days {
        ReplaceDaysRows(rows, owner, days, from + 1, o, d);
        assert DayIndex(d) == from ==> d == day;
      } else {
        var step := InsertWindows(DeleteDay(rows, owner, day), owner, day, days[day]);
        ReplaceDaysRows(step.0, owner, days, from + 1, o, d);
        ReplaceDayRows(rows, owner, day, days[day], o, d);
      }
    }
  }

  /** One turn of the day loop: a day not submitted is skipped, a submitted day is replaced and the loop goes on unless it was refused. */
  lemma ReplaceDaysUnfold(rows: seq<Availability>, owner: nat, days: map<string, seq<Window>>, from: nat)
    requires from < |DayKeys|
    ensures DayKeys[from] !in days ==> ReplaceDays(rows, owner, days, from) == ReplaceDays(rows, owner, days, from + 1)
    ensures DayKeys[from] in days ==>
      var step := InsertWindows(DeleteDay(rows, owner, DayKeys[from]), owner, DayKeys[from], days[DayKeys[from]]);
      ReplaceDays(rows, owner, days, from) == if step.1.Some? then step else ReplaceDays(step.0, owner, days, from + 1)
  {
  }

  /**
   * Weekday `k` is the first submitted weekday from position `from` on whose
   * windows are not acceptable, and window `n` is its first window that
   * starts after it ends or repeats an earlier one. After its delete a
   * weekday holds no row its windows could collide with, so this is where
   * the day loop stops.
   */
  predicate RefusedWindowAt(days: map<string, seq<Window>>, from: nat, k: nat, n: nat) {
    && from <= k < |DayKeys| && DayKeys[k] in days && n < |days[DayKeys[k]]|
    && (forall j :: from <= j < k && DayKeys[j] in days ==> WindowsAcceptable(days[DayKeys[j]]))
    && WindowsAcceptable(days[DayKeys[k]][..n])
    && (days[DayKeys[k]][n].startTime > days[DayKeys[k]][n].endTime || days[DayKeys[k]][n] in days[DayKeys[k]][..n])
  }

  /**
   * A day loop started at `from` was refused at the `n`-th window of weekday
   * `k` (as `RefusedWindowAt` says), and left the owner's rows as follows:
   * the submitted weekdays before `k` hold their windows, weekday `k` holds
   * the windows before the refused one, and every later or unsubmitted day
   * keeps the rows it had.
   */
  ghost predicate RefusedAt(before: seq<Availability>, after: seq<Availability>, owner: nat,
                      days: map<string, seq<Window>>, from: nat, k: nat, n: nat)
  {
    && RefusedWindowAt(days, from, k, n)
    && forall d: string :: RowsFor(after, owner, d) ==
         if d in days && from <= DayIndex(d) < k then WindowRows(owner, d, days[d])
         else if d == DayKeys[k] then WindowRows(owner, d, days[d][..n])
         else RowsFor(before, owner, d)
  }

  /** Deleting a day of the owner and appending rows of that day leaves exactly those rows under it. */
  lemma DayHoldsInserted(rows: seq<Availability>, owner: nat, day: string, added: seq<Availability>)
    requires forall i :: 0 <= i < |added| ==> added[i].owner == owner && added[i].dayOfWeek == day
    ensures RowsFor(DeleteDay(rows, owner, day) + added, owner, day) == added
  {
    var kept := DeleteDay(rows, owner, day);
    FilterAppend(kept, added, OfDay(owner, day));
    FilterNone(kept, OfDay(owner, day));
    FilterAll(added, OfDay(owner, day));
  }

  /** After the delete, the first refused window of a weekday starts after it ends or repeats an earlier window. */
  lemma FirstRefusedAfterDelete(rows: seq<Availability>, owner: nat, day: string, ws: seq<Window>, n: nat)
    requires FirstRefused(DeleteDay(rows, owner, day), owner, day, ws, n)
    ensures WindowsAcceptable(ws[..n])
    ensures ws[n].startTime > ws[n].endTime || ws[n] in ws[..n]
  {
    var kept := DeleteDay(rows, owner, day);
    var front := ws[..n];
    forall i, j | 0 <= i < j < |front| ensures front[i] != front[j] {
      assert WindowGoesIn(kept, owner, day, ws, j);
      assert ws[..j][i] == ws[i];
    }
    forall i | 0 <= i < |front| ensures front[i].startTime <= front[i].endTime {
      assert WindowGoesIn(kept, owner, day, ws, i);
    }
    assert Availability(owner, day, ws[n].startTime, ws[n].endTime) !in kept;
  }

  /** In acceptable windows, every window is well ordered and differs from the windows before it. */
  lemma AcceptableWindow(ws: seq<Window>, n: nat)
    requires WindowsAcceptable(ws) && n < |ws|
    ensures ws[n].startTime <= ws[n].endTime && ws[n] !in ws[..n]
  {
    forall i | 0 <= i < n ensures ws[..n][i] != ws[n] {
      assert ws[..n][i] == ws[i];
    }
  }

  /** The weekday and the window a refusal names are determined by the submission alone. */
  lemma RefusedWindowUnique(days: map<string, seq<Window>>, from: nat, k: nat, n: nat, k': nat, n': nat)
    requires RefusedWindowAt(days, from, k, n)
    requires RefusedWindowAt(days, from, k', n')
    ensures k == k' && n == n'
  {
    if k < k' {
      AcceptableWindow(days[DayKeys[k]], n);
      assert false;
    } else if k' < k {
      AcceptableWindow(days[DayKeys[k']], n');
      assert false;
    } else {
      var ws := days[DayKeys[k]];
      if n < n' {
        assert ws[..n'][..n] == ws[..n] && ws[..n'][n] == ws[n];
        AcceptableWindow(ws[..n'], n);
        assert false;
      } else if n' < n {
        assert ws[..n][..n'] == ws[..n'] && ws[..n][n'] == ws[n'];
        AcceptableWindow(ws[..n], n');
        assert false;
      }
    }
  }

  /**
   * Nothing is rolled back: when the day loop is refused, the deletes and
   * inserts of the weekdays before the refused one, and of the refused
   * weekday's windows before the refused window, all stay.
   */
  lemma {:induction false} ReplaceDaysKeepsPartialWrites(rows: seq<Availability>, owner: nat, days: map<string, seq<Window>>, from: nat)
    requires from <= |DayKeys|
    requires ReplaceDays(rows, owner, days, from).1.Some?
    ensures exists k: nat, n: nat :: RefusedAt(rows, ReplaceDays(rows, owner, days, from).0, owner, days, from, k, n)
    decreases |DayKeys| - from
  {
    var day := DayKeys[from];
    if day !in days {
      ReplaceDaysSkips(rows, owner, days, from);
      ReplaceDaysKeepsPartialWrites(rows, owner, days, from + 1);
      KeepsPartialWritesSkip(rows, owner, days, from, from + 1);
    } else {
      var step := InsertWindows(DeleteDay(rows, owner, day), owner, day, days[day]);
      if step.1.Some? {
        KeepsPartialWritesHere(rows, owner, days, from);
      } else {
        ReplaceDaysGoesOn(rows, owner, days, from);
        ReplaceDaysKeepsPartialWrites(step.0, owner, days, from + 1);
        KeepsPartialWritesThrough(rows, step.0, owner, days, from, from + 1);
      }
    }
  }

  /** `ReplaceDaysKeepsPartialWrites` at a weekday that was not submitted. */
  lemma KeepsPartialWritesSkip(rows: seq<Availability>, owner: nat, days: map<string, seq<Window>>, from: nat, next: nat)
    requires from < |DayKeys| && DayKeys[from] !in days && next == from + 1
    requires exists k: nat, n: nat :: RefusedAt(rows, ReplaceDays(rows, owner, days, next).0, owner, days, next, k, n)
    ensures exists k: nat, n: nat :: RefusedAt(rows, ReplaceDays(rows, owner, days, from).0, owner, days, from, k, n)
  {
    ReplaceDaysSkips(rows, owner, days, from);
    var after := ReplaceDays(rows, owner, days, from).0;
    var k: nat, n: nat :| RefusedAt(rows, after, owner, days, from + 1, k, n);
    RefusedAtSkip(rows, after, owner, days, from, k, n);
  }

  /** `ReplaceDaysKeepsPartialWrites` at the weekday that was refused. */
  lemma KeepsPartialWritesHere(rows: seq<Availability>, owner: nat, days: map<string, seq<Window>>, from: nat)
    requires from < |DayKeys| && DayKeys[from] in days
    requires InsertWindows(DeleteDay(rows, owner, DayKeys[from]), owner, DayKeys[from], days[DayKeys[from]]).1.Some?
    ensures exists k: nat, n: nat :: RefusedAt(rows, ReplaceDays(rows, owner, days, from).0, owner, days, from, k, n)
  {
    ReplaceDaysStops(rows, owner, days, from, DeleteDay(rows, owner, DayKeys[from]));
    RefusedAtHere(rows, owner, days, from);
  }

  /** `ReplaceDaysKeepsPartialWrites` at a submitted weekday replaced in full before the refusal. */
  lemma KeepsPartialWritesThrough(rows: seq<Availability>, mid: seq<Availability>, owner: nat,
                                  days: map<string, seq<Window>>, from: nat, next: nat)
    requires from < |DayKeys| && DayKeys[from] in days && next == from + 1
    requires InsertWindows(DeleteDay(rows, owner, DayKeys[from]), owner, DayKeys[from], days[DayKeys[from]]) == (mid, None)
    requires exists k: nat, n: nat :: RefusedAt(mid, ReplaceDays(rows, owner, days, from).0, owner, days, next, k, n)
    ensures exists k: nat, n: nat :: RefusedAt(rows, ReplaceDays(rows, owner, days, from).0, owner, days, from, k, n)
  {
    var after := ReplaceDays(rows, owner, days, from).0;
    var k: nat, n: nat :| RefusedAt(mid, after, owner, days, from + 1, k, n);
    RefusedAtThrough(rows, mid, after, owner, days, from, k, n);
  }

  /**
   * The day loop is refused exactly where `RefusedWindowAt` says, with
   * `InvalidWindow` for a window that starts after it ends and
   * `DuplicateWindow` for one that repeats an earlier window of its weekday.
   */
  lemma {:induction false} ReplaceDaysRefusal(rows: seq<Availability>, owner: nat, days: map<string, seq<Window>>,
                                              from: nat, k: nat, n: nat)
    requires RefusedWindowAt(days, from, k, n)
    ensures ReplaceDays(rows, owner, days, from).1 ==
      Some(if days[DayKeys[k]][n].startTime > days[DayKeys[k]][n].endTime then InvalidWindow else DuplicateWindow)
    decreases |DayKeys| - from
  {
    var day := DayKeys[from];
    var kept := DeleteDay(rows, owner, day);
    if from < k {
      RefusedWindowNext(days, from, k, n);
      if day !in days {
        ReplaceDaysSkips(rows, owner, days, from);
        ReplaceDaysRefusal(rows, owner, days, from + 1, k, n);
      } else {
        InsertWindowsAccepts(kept, owner, day, days[day]);
        assert forall i :: 0 <= i < |days[day]| ==> Availability(owner, day, days[day][i].startTime, days[day][i].endTime) !in kept;
        ReplaceDaysGoesOn(rows, owner, days, from);
        ReplaceDaysRefusal(InsertWindows(kept, owner, day, days[day]).0, owner, days, from + 1, k, n);
      }
    } else {
      var ws := days[day];
      if WindowsAcceptable(ws) {
        AcceptableWindow(ws, n);
        assert false;
      }
      InsertWindowsAccepts(kept, owner, day, ws);
      ReplaceDaysStops(rows, owner, days, from, kept);
      var m: nat :| FirstRefused(kept, owner, day, ws, m)
        && (InsertWindows(kept, owner, day, ws).1 == Some(InvalidWindow) <==> ws[m].startTime > ws[m].endTime)
        && (InsertWindows(kept, owner, day, ws).1 == Some(DuplicateWindow) <==> ws[m].startTime <= ws[m].endTime);
      FirstRefusedAfterDelete(rows, owner, day, ws, m);
      RefusedWindowUnique(days, from, from, m, k, n);
    }
  }

  /** A refusal found from `from` on, at a later weekday, is found from `from + 1` on as well. */
  lemma RefusedWindowNext(days: map<string, seq<Window>>, from: nat, k: nat, n: nat)
    requires RefusedWindowAt(days, from, k, n) && from < k
    ensures RefusedWindowAt(days, from + 1, k, n)
  {
  }

  /** A weekday that was not submitted is skipped. */
  lemma ReplaceDaysSkips(rows: seq<Availability>, owner: nat, days: map<string, seq<Window>>, from: nat)
    requires from < |DayKeys| && DayKeys[from] !in days
    ensures ReplaceDays(rows, owner, days, from) == ReplaceDays(rows, owner, days, from + 1)
  {
  }

  /** A submitted weekday whose windows were all accepted hands its rows to the next weekday. */
  lemma ReplaceDaysGoesOn(rows: seq<Availability>, owner: nat, days: map<string, seq<Window>>, from: nat)
    requires from < |DayKeys| && DayKeys[from] in days
    requires InsertWindows(DeleteDay(rows, owner, DayKeys[from]), owner, DayKeys[from], days[DayKeys[from]]).1.None?
    ensures ReplaceDays(rows, owner, days, from) ==
      ReplaceDays(InsertWindows(DeleteDay(rows, owner, DayKeys[from]), owner, DayKeys[from], days[DayKeys[from]]).0, owner, days, from + 1)
  {
  }

  /** A weekday that was not submitted changes nothing in the description of a refusal. */
  lemma RefusedAtSkip(rows: seq<Availability>, after: seq<Availability>, owner: nat,
                      days: map<string, seq<Window>>, from: nat, k: nat, n: nat)
    requires from < |DayKeys| && DayKeys[from] !in days
    requires RefusedAt(rows, after, owner, days, from + 1, k, n)
    ensures RefusedAt(rows, after, owner, days, from, k, n)
  {
    RefusedWindowFrom(days, from, k, n);
    forall d: string | DayIndex(d) == from ensures d !in days {
      assert d == DayKeys[from];
    }
  }

  /** A refusal found from `from + 1` on is the refusal from `from` on when weekday `from` was skipped or accepted. */
  lemma RefusedWindowFrom(days: map<string, seq<Window>>, from: nat, k: nat, n: nat)
    requires from < |DayKeys| && (DayKeys[from] in days ==> WindowsAcceptable(days[DayKeys[from]]))
    requires RefusedWindowAt(days, from + 1, k, n)
    ensures RefusedWindowAt(days, from, k, n)
  {
  }

  /** A weekday refused at once leaves the windows before the refused one under it and the other days as they were. */
  lemma RefusedAtHere(rows: seq<Availability>, owner: nat, days: map<string, seq<Window>>, from: nat)
    requires from < |DayKeys| && DayKeys[from] in days
    requires InsertWindows(DeleteDay(rows, owner, DayKeys[from]), owner, DayKeys[from], days[DayKeys[from]]).1.Some?
    ensures exists n: nat :: RefusedAt(rows, InsertWindows(DeleteDay(rows, owner, DayKeys[from]), owner, DayKeys[from], days[DayKeys[from]]).0,
                                       owner, days, from, from, n)
  {
    var day := DayKeys[from];
    var ws := days[day];
    var kept := DeleteDay(rows, owner, day);
    var after := InsertWindows(kept, owner, day, ws).0;
    ReplaceDayLeavesAll(rows, owner, day, ws);
    var n: nat :| FirstRefused(kept, owner, day, ws, n) && after == kept + WindowRows(owner, day, ws[..n]);
    FirstRefusedAfterDelete(rows, owner, day, ws, n);
    DayHoldsInserted(rows, owner, day, WindowRows(owner, day, ws[..n]));
    assert RefusedAt(rows, after, owner, days, from, from, n);
  }

  /** A weekday replaced in full before the refusal holds its windows afterwards. */
  lemma RefusedAtThrough(rows: seq<Availability>, mid: seq<Availability>, after: seq<Availability>, owner: nat,
                         days: map<string, seq<Window>>, from: nat, k: nat, n: nat)
    requires from < |DayKeys| && DayKeys[from] in days
    requires InsertWindows(DeleteDay(rows, owner, DayKeys[from]), owner, DayKeys[from], days[DayKeys[from]]) == (mid, None)
    requires RefusedAt(mid, after, owner, days, from + 1, k, n)
    ensures RefusedAt(rows, after, owner, days, from, k, n)
  {
    var day := DayKeys[from];
    var ws := days[day];
    assert mid == DeleteDay(rows, owner, day) + WindowRows(owner, day, ws);
    InsertWindowsAccepts(DeleteDay(rows, owner, day), owner, day, ws);
    RefusedWindowFrom(days, from, k, n);
    forall d: string ensures RowsFor(after, owner, d) ==
      if d in days && from <= DayIndex(d) < k then WindowRows(owner, d, days[d])
      else if d == DayKeys[k] then WindowRows(owner, d, days[d][..n])
      else RowsFor(rows, owner, d)
    {
      if d == day {
        DayHoldsInserted(rows, owner, day, WindowRows(owner, day, ws));
      } else {
        ReplaceDayLeavesOthers(rows, owner, day, ws, owner, d);
      }
      RefusedAtThroughDay(rows, mid, after, owner, days, from, k, n, d);
    }
  }

  /** `RefusedAtThrough` for one day string. */
  lemma RefusedAtThroughDay(rows: seq<Availability>, mid: seq<Availability>, after: seq<Availability>, owner: nat,
                            days: map<string, seq<Window>>, from: nat, k: nat, n: nat, d: string)
    requires from < k < |DayKeys| && DayKeys[from] in days && DayKeys[k] in days && n < |days[DayKeys[k]]|
    requires RowsFor(mid, owner, d) == if d == DayKeys[from] then WindowRows(owner, d, days[d]) else RowsFor(rows, owner, d)
    requires RowsFor(after, owner, d) ==
      if d in days && from + 1 <= DayIndex(d) < k then WindowRows(owner, d, days[d])
      else if d == DayKeys[k] then WindowRows(owner, d, days[d][..n])
      else RowsFor(mid, owner, d)
    ensures RowsFor(after, owner, d) ==
      if d in days && from <= DayIndex(d) < k then WindowRows(owner, d, days[d])
      else if d == DayKeys[k] then WindowRows(owner, d, days[d][..n])
      else RowsFor(rows, owner, d)
  {
    if d == DayKeys[from] {
      KeyIndex(from);
    } else {
      assert DayIndex(d) != from;
    }
  }

  /** Every weekday key sits at its own position. */
  lemma KeyIndex(i: nat)
    requires i < |DayKeys|
    ensures DayIndex(DayKeys[i]) == i
  {
    assert DayKeys[i] == ["monday", "tuesday", "wednesday", "thursday", "friday", "saturday", "sunday"][i];
  }

  /** A submitted day with a refused window ends the loop with what its inserts left. */
  lemma ReplaceDaysStops(rows: seq<Availability>, owner: nat, days: map<string, seq<Window>>, from: nat, kept: seq<Availability>)
    requires from < |DayKeys| && DayKeys[from] in days
    requires DeleteDay(rows, owner, DayKeys[from]) == kept
    requires InsertWindows(kept, owner, DayKeys[from], days[DayKeys[from]]).1.Some?
    ensures ReplaceDays(rows, owner, days, from) == InsertWindows(kept, owner, DayKeys[from], days[DayKeys[from]])
  {
  }

  /** Every day is replaced exactly when every submitted weekday from `from` on has acceptable windows. */
  lemma {:induction false} ReplaceDaysAccepts(rows: seq<Availability>, owner: nat, days: map<string, seq<Window>>, from: nat)
    requires from <= |DayKeys|
    ensures ReplaceDays(rows, owner, days, from).1.None? <==>
      forall i :: from <= i < |DayKeys| && DayKeys[i] in days ==> WindowsAcceptable(days[DayKeys[i]])
    decreases |DayKeys| - from
  {
    if from < |DayKeys| {
      var day := DayKeys[from];
      if day !in days {
        ReplaceDaysSkips(rows, owner, days, from);
        ReplaceDaysAccepts(rows, owner, days, from + 1);
      } else {
        var kept := DeleteDay(rows, owner, day);
        var ws := days[day];
        InsertWindowsAccepts(kept, owner, day, ws);
        assert forall i :: 0 <= i < |ws| ==> Availability(owner, day, ws[i].startTime, ws[i].endTime) !in kept;
        var step := InsertWindows(kept, owner, day, ws);
        if step.1.None? {
          ReplaceDaysGoesOn(rows, owner, days, from);
          ReplaceDaysAccepts(step.0, owner, days, from + 1);
        } else {
          ReplaceDaysStops(rows, owner, days, from, kept);
        }
      }
    }
  }

  /** The rows the submitted weekdays at field positions `from` up to `stop` become, weekday by weekday. */
  function SubmittedRows(owner: nat, days: map<string, seq<Window>>, from: nat, stop: nat): (r: seq<Availability>)
    requires from <= stop <= |DayKeys|
    ensures forall i :: 0 <= i < |r| ==> r[i].owner == owner && from <= DayIndex(r[i].dayOfWeek) < stop
    decreases stop - from
  {
    if from == stop then []
    else
      var day := DayKeys[from];
      assert DayIndex(day) == from;
      (if day in days then WindowRows(owner, day, days[day]) else []) + SubmittedRows(owner, days, from + 1, stop)
  }

  /** Weekdays that were not submitted contribute no rows. */
  lemma {:induction false} SubmittedRowsNone(owner: nat, days: map<string, seq<Window>>, from: nat, stop: nat)
    requires from <= stop <= |DayKeys|
    requires forall i :: from <= i < stop ==> DayKeys[i] !in days
    ensures SubmittedRows(owner, days, from, stop) == []
    decreases stop - from
  {
    if from < stop {
      SubmittedRowsNone(owner, days, from + 1, stop);
    }
  }

  /**
   * When the owner has no row yet under the weekdays still to come, and those
   * before `stop` are acceptable, the loop only appends their windows: deleting
   * finds nothing, and inserting refuses nothing.
   */
  lemma {:induction false} ReplaceDaysAppends(rows: seq<Availability>, owner: nat, days: map<string, seq<Window>>, from: nat, stop: nat)
    requires from <= stop <= |DayKeys|
    requires forall i :: 0 <= i < |rows| && rows[i].owner == owner ==> !(from <= DayIndex(rows[i].dayOfWeek) < |DayKeys|)
    requires forall i :: from <= i < stop && DayKeys[i] in days ==> WindowsAcceptable(days[DayKeys[i]])
    ensures ReplaceDays(rows, owner, days, from) == ReplaceDays(rows + SubmittedRows(owner, days, from, stop), owner, days, stop)
    decreases stop - from
  {
    if from == stop {
      assert rows + [] == rows;
    } else {
      var day := DayKeys[from];
      assert DayIndex(day) == from;
      ReplaceDaysUnfold(rows, owner, days, from);
      var added := if day in days then WindowRows(owner, day, days[day]) else [];
      var next := rows + added;
      if day in days {
        var ws := days[day];
        FilterAll(rows, NotOfDay(owner, day));
        InsertWindowsAccepts(rows, owner, day, ws);
        forall i | 0 <= i < |ws| ensures Availability(owner, day, ws[i].startTime, ws[i].endTime) !in rows {
        }
        assert InsertWindows(DeleteDay(rows, owner, day), owner, day, ws) == (next, None);
      } else {
        assert next == rows;
      }
      assert ReplaceDays(rows, owner, days, from) == ReplaceDays(next, owner, days, from + 1);
      assert SubmittedRows(owner, days, from, stop) == added + SubmittedRows(owner, days, from + 1, stop);
      forall i | 0 <= i < |next| && next[i].owner == owner
        ensures !(from + 1 <= DayIndex(next[i].dayOfWeek) < |DayKeys|)
      {
        if i < |rows| {
          assert next[i] == rows[i];
        } else {
          assert next[i] == added[i - |rows|];
        }
      }
      ReplaceDaysAppends(next, owner, days, from + 1, stop);
      AppendAssociates(rows, added, SubmittedRows(owner, days, from + 1, stop));
    }
  }

  /**
   * `CalendarOwner.objects.get_or_create(email=email, defaults={'name': name})`
   * for an already lower-cased address: an existing owner is returned as it
   * is (its name is not updated), otherwise a new one is appended.
   */
  function UpsertOwner(owners: seq<CalendarOwner>, name: string, email: string): (r: (seq<CalendarOwner>, nat))
    requires IsLowerCase(email)
    ensures r.1 < |r.0| && r.0[r.1].email == email
    ensures (exists i :: 0 <= i < |owners| && owners[i].email == email) ==> r.0 == owners
    ensures (forall i :: 0 <= i < |owners| ==> owners[i].email != email) ==>
      r.0 == owners + [CalendarOwner(name, email)] && r.1 == |owners|
  {
    match FindOwner(owners, email)
    case Some(i) => (owners, i)
    case None => (owners + [SavedOwner(name, email)], |owners|)
  }

  /** The owner fields pass their rules. */
  predicate OwnerFieldsValid(req: SetupRequest) {
    ValidOwnerName(req.ownerName) && ValidOwnerEmail(req.ownerEmail)
  }

  /**
   * `AvailabilitySetupAPI.post`: availability errors are reported before
   * owner errors, and both before any write; then the owner is created on
   * first contact and the validated weekdays are replaced in field order.
   * The owner record stays even when a window is refused afterwards.
   */
  function Setup(st: Store, req: SetupRequest): (r: SetupResult)
    ensures r.store.appointments == st.appointments
    ensures !AvailabilityAcceptable(req.availability) ==> r == SetupResult(st, Err(AvailabilityErrors))
    ensures AvailabilityAcceptable(req.availability) && !OwnerFieldsValid(req) ==> r == SetupResult(st, Err(OwnerErrors))
    ensures AvailabilityAcceptable(req.availability) && OwnerFieldsValid(req) ==>
      var email := Lower(req.ownerEmail.value);
      && ((exists i :: 0 <= i < |st.owners| && st.owners[i].email == email) ==> r.store.owners == st.owners)
      && ((forall i :: 0 <= i < |st.owners| ==> st.owners[i].email != email) ==>
            r.store.owners == st.owners + [CalendarOwner(req.ownerName.value, email)])
    ensures r.outcome.Ok? ==>
      r.outcome.value < |r.store.owners| && r.store.owners[r.outcome.value].email == Lower(req.ownerEmail.value)
  {
    match ValidateAvailability(req.availability)
    case None => SetupResult(st, Err(AvailabilityErrors))
    case Some(days) =>
      if !OwnerFieldsValid(req) then SetupResult(st, Err(OwnerErrors))
      else
        var email := Lower(req.ownerEmail.value);
        var (owners, owner) := UpsertOwner(st.owners, req.ownerName.value, email);
        var (rows, err) := ReplaceDays(st.availability, owner, days, 0);
        SetupResult(Store(owners, rows, st.appointments), if err.None? then Ok(owner) else Err(err.value))
  }

  /** The weekday windows a submission carries, once validated. */
  function SubmittedDays(req: SetupRequest): (days: map<string, seq<Window>>)
    requires AvailabilityAcceptable(req.availability)
    ensures forall k :: k in days ==> k in DayKeys
  {
    ValidateAvailability(req.availability).value
  }

  /**
   * Setup succeeds exactly when the submission validates and every submitted
   * weekday's windows are acceptable: none starts after it ends (a window
   * that ends when it starts is accepted) and none is given twice.
   */
  lemma SetupSucceedsIff(st: Store, req: SetupRequest)
    ensures Setup(st, req).outcome.Ok? <==>
      && AvailabilityAcceptable(req.availability)
      && OwnerFieldsValid(req)
      && forall k :: k in SubmittedDays(req) ==> WindowsAcceptable(SubmittedDays(req)[k])
  {
    if AvailabilityAcceptable(req.availability) && OwnerFieldsValid(req) {
      var days := SubmittedDays(req);
      var email := Lower(req.ownerEmail.value);
      var (owners, owner) := UpsertOwner(st.owners, req.ownerName.value, email);
      ReplaceDaysAccepts(st.availability, owner, days, 0);
      if forall i :: 0 <= i < |DayKeys| && DayKeys[i] in days ==> WindowsAcceptable(days[DayKeys[i]]) {
        forall k | k in days ensures WindowsAcceptable(days[k]) {
          assert DayKeys[DayIndex(k)] == k;
        }
      }
    }
  }

  /**
   * After a successful setup, each submitted weekday (lower-cased) of the
   * owner holds exactly the submitted windows in order; every other day of
   * that owner, and every row of every other owner, is as it was.
   */
  lemma SetupReplacesDays(st: Store, req: SetupRequest, o: nat, d: string)
    requires Setup(st, req).outcome.Ok?
    ensures var r := Setup(st, req);
      var owner := r.outcome.value;
      var days := SubmittedDays(req);
      RowsFor(r.store.availability, o, d) ==
        if o == owner && d in days then WindowRows(owner, d, days[d]) else RowsFor(st.availability, o, d)
  {
    var days := SubmittedDays(req);
    var email := Lower(req.ownerEmail.value);
    var (owners, owner) := UpsertOwner(st.owners, req.ownerName.value, email);
    ReplaceDaysRows(st.availability, owner, days, 0, o, d);
  }

  /**
   * For an owner with no row under a weekday key yet (a new owner, say), a
   * successful setup appends exactly the submitted windows, weekday by
   * weekday in field order, each weekday's in submission order.
   */
  lemma SetupAppendsSubmitted(st: Store, req: SetupRequest)
    requires Setup(st, req).outcome.Ok?
    requires forall i :: 0 <= i < |st.availability| && st.availability[i].owner == Setup(st, req).outcome.value ==>
      st.availability[i].dayOfWeek !in DayKeys
    ensures Setup(st, req).store.availability ==
      st.availability + SubmittedRows(Setup(st, req).outcome.value, SubmittedDays(req), 0, |DayKeys|)
  {
    var days := SubmittedDays(req);
    var email := Lower(req.ownerEmail.value);
    var (owners, owner) := UpsertOwner(st.owners, req.ownerName.value, email);
    SetupSucceedsIff(st, req);
    ReplaceDaysAppends(st.availability, owner, days, 0, |DayKeys|);
  }

  /**
   * A setup refused by a window keeps what it wrote before the refusal: the
   * owner record stays, the owner's weekdays are as `RefusedAt` says, and
   * the error names what is wrong with the first refused window.
   */
  lemma SetupRefusalKeepsWrites(st: Store, req: SetupRequest)
    requires AvailabilityAcceptable(req.availability) && OwnerFieldsValid(req)
    requires Setup(st, req).outcome.Err?
    ensures var email := Lower(req.ownerEmail.value);
      var owner := UpsertOwner(st.owners, req.ownerName.value, email).1;
      && owner < |Setup(st, req).store.owners| && Setup(st, req).store.owners[owner].email == email
      && exists k: nat, n: nat ::
           && RefusedAt(st.availability, Setup(st, req).store.availability, owner, SubmittedDays(req), 0, k, n)
           && var w := SubmittedDays(req)[DayKeys[k]][n];
              Setup(st, req).outcome == Err(if w.startTime > w.endTime then InvalidWindow else DuplicateWindow)
  {
    SetupKeepsOwner(st, req);
    SetupRefusalRows(st, req, UpsertOwner(st.owners, req.ownerName.value, Lower(req.ownerEmail.value)).1);
  }

  /** A submission that validates leaves the owner with its lower-cased address in the store, whatever the day loop does. */
  lemma SetupKeepsOwner(st: Store, req: SetupRequest)
    requires AvailabilityAcceptable(req.availability) && OwnerFieldsValid(req)
    ensures var email := Lower(req.ownerEmail.value);
      var owner := UpsertOwner(st.owners, req.ownerName.value, email).1;
      owner < |Setup(st, req).store.owners| && Setup(st, req).store.owners[owner].email == email
  {
  }

  /** The rows and the error of a setup refused by a window, for the upserted owner. */
  lemma SetupRefusalRows(st: Store, req: SetupRequest, owner: nat)
    requires AvailabilityAcceptable(req.availability) && OwnerFieldsValid(req)
    requires owner == UpsertOwner(st.owners, req.ownerName.value, Lower(req.ownerEmail.value)).1
    requires Setup(st, req).outcome.Err?
    ensures exists k: nat, n: nat ::
      && RefusedAt(st.availability, Setup(st, req).store.availability, owner, SubmittedDays(req), 0, k, n)
      && var w := SubmittedDays(req)[DayKeys[k]][n];
         Setup(st, req).outcome == Err(if w.startTime > w.endTime then InvalidWindow else DuplicateWindow)
  {
    SetupRunsDays(st, req);
    RefusedLoopOutcome(st.availability, owner, SubmittedDays(req), Setup(st, req).store.availability, Setup(st, req).outcome);
  }

  /** A refused day loop, and an outcome carrying its error, as `RefusedAt` and `ReplaceDaysRefusal` describe them. */
  lemma RefusedLoopOutcome(rows: seq<Availability>, owner: nat, days: map<string, seq<Window>>,
                           after: seq<Availability>, outcome: Result<nat, SetupError>)
    requires ReplaceDays(rows, owner, days, 0).1.Some?
    requires after == ReplaceDays(rows, owner, days, 0).0
    requires outcome == Err(ReplaceDays(rows, owner, days, 0).1.value)
    ensures exists k: nat, n: nat ::
      && RefusedAt(rows, after, owner, days, 0, k, n)
      && var w := days[DayKeys[k]][n];
         outcome == Err(if w.startTime > w.endTime then InvalidWindow else DuplicateWindow)
  {
    ReplaceDaysKeepsPartialWrites(rows, owner, days, 0);
    var k: nat, n: nat :| RefusedAt(rows, after, owner, days, 0, k, n);
    ReplaceDaysRefusal(rows, owner, days, 0, k, n);
  }


  /** A submission that validates runs the day loop on the stored rows, for the upserted owner. */
  lemma SetupRunsDays(st: Store, req: SetupRequest)
    requires AvailabilityAcceptable(req.availability) && OwnerFieldsValid(req)
    ensures var owner := UpsertOwner(st.owners, req.ownerName.value, Lower(req.ownerEmail.value)).1;
      var loop := ReplaceDays(st.availability, owner, SubmittedDays(req), 0);
      && Setup(st, req).store.availability == loop.0
      && Setup(st, req).outcome == if loop.1.None? then Ok(owner) else Err(loop.1.value)
  {
  }

  /** Setup keeps the schema's integrity rules, whatever its outcome. */
  lemma SetupPreservesValid(st: Store, req: SetupRequest)
    requires Valid(st)
    ensures Valid(Setup(st, req).store)
  {
    var r := Setup(st, req);
    if AvailabilityAcceptable(req.availability) && OwnerFieldsValid(req) {
      var email := Lower(req.ownerEmail.value);
      var (owners, owner) := UpsertOwner(st.owners, req.ownerName.value, email);
      assert r.store.owners == owners;
      assert OwnersValid(owners) by {
        if owners != st.owners {
          assert owners == st.owners + [CalendarOwner(req.ownerName.value, email)];
        }
      }
      var rows := r.store.availability;
      forall i | 0 <= i < |rows| ensures rows[i].owner < |owners| {
        if rows[i] in st.availability {
          var j :| 0 <= j < |st.availability| && st.availability[j] == rows[i];
        }
      }
    }
  }

  /** Replacing one day of one owner, refused or not, leaves every other (owner, day) alone. */
  lemma ReplaceDayLeavesOthers(rows: seq<Availability>, owner: nat, day: string, ws: seq<Window>, o: nat, d: string)
    requires !(o == owner && d == day)
    ensures RowsFor(InsertWindows(DeleteDay(rows, owner, day), owner, day, ws).0, o, d) == RowsFor(rows, o, d)
  {
    var kept := DeleteDay(rows, owner, day);
    var step := InsertWindows(kept, owner, day, ws);
    if step.1.None? {
      ReplaceDayRows(rows, owner, day, ws, o, d);
    } else {
      var n: nat :| FirstRefused(kept, owner, day, ws, n) && step.0 == kept + WindowRows(owner, day, ws[..n]);
      FilterAppend(kept, WindowRows(owner, day, ws[..n]), OfDay(o, d));
      FilterOfFilter(rows, NotOfDay(owner, day), OfDay(o, d));
      FilterNone(WindowRows(owner, day, ws[..n]), OfDay(o, d));
    }
  }

  /** One weekday's replacement, refused or not, leaves every other (owner, day) alone, all at once. */
  lemma ReplaceDayLeavesAll(rows: seq<Availability>, owner: nat, day: string, ws: seq<Window>)
    ensures forall o: nat, d: string :: !(o == owner && d == day) ==>
      RowsFor(InsertWindows(DeleteDay(rows, owner, day), owner, day, ws).0, o, d) == RowsFor(rows, o, d)
  {
    forall o: nat, d: string | !(o == owner && d == day)
      ensures RowsFor(InsertWindows(DeleteDay(rows, owner, day), owner, day, ws).0, o, d) == RowsFor(rows, o, d)
    {
      ReplaceDayLeavesOthers(rows, owner, day, ws, o, d);
    }
  }

  /**
   * Whatever its outcome, setup changes no row stored under a day string
   * that is not a lower-case weekday key, and no row of an owner other than
   * the one the request names: an existing owner with another address, or,
   * after a success, any owner but the one returned.
   */
  lemma SetupLeavesOthers(st: Store, req: SetupRequest, o: nat, d: string)
    requires || d !in DayKeys
             || (o < |st.owners| && (req.ownerEmail.None? || st.owners[o].email != Lower(req.ownerEmail.value)))
             || (Setup(st, req).outcome.Ok? && o != Setup(st, req).outcome.value)
    ensures RowsFor(Setup(st, req).store.availability, o, d) == RowsFor(st.availability, o, d)
  {
    if AvailabilityAcceptable(req.availability) && OwnerFieldsValid(req) {
      var days := SubmittedDays(req);
      var email := Lower(req.ownerEmail.value);
      var (owners, owner) := UpsertOwner(st.owners, req.ownerName.value, email);
    }
  }
}
