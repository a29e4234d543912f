/**
 * The request validation rules the scheduler relies on: the owner-name length
 * rule, the set of weekday keys an availability submission may carry, the
 * shape of one time slot, and the length limits of a booking request.
 *
 * Values reach these predicates already parsed: a missing field is `None`,
 * a time field is a `TimeOfDay`.
 */
module Serializers {
  import opened Results
  import opened Time
  import opened Text

  const OwnerNameMinLength: nat := 3
  const OwnerNameMaxLength: nat := 100
  const EmailMaxLength: nat := 254
  const InviteeNameMaxLength: nat := 100

  /** The availability fields, in the order the serializer declares them. */
  const DayKeys: seq<string> :=
    ["monday", "tuesday", "wednesday", "thursday", "friday", "saturday", "sunday"]

  /** `owner_name`: required, non-blank, at most 100 characters, and at least 3
      (the last rule is the custom field validator). */
  predicate ValidOwnerName(name: Option<string>) {
    name.Some? && OwnerNameMinLength <= |name.value| <= OwnerNameMaxLength
  }

  /** `owner_email`: required, non-blank, at most 254 characters. */
  predicate ValidOwnerEmail(email: Option<string>) {
    email.Some? && 0 < |email.value| <= EmailMaxLength
  }

  /** The fields of a booking request: every one non-blank, `invitee_name` at
      most 100 characters and `invitee_email` at most 254. */
  predicate ValidBookingFields(ownerEmail: string, inviteeName: string, inviteeEmail: string) {
    && 0 < |ownerEmail|
    && 0 < |inviteeName| <= InviteeNameMaxLength
    && 0 < |inviteeEmail| <= EmailMaxLength
  }

  /** Position of a weekday key in the serializer's field order (7 when it is not a key). */
  function DayIndex(day: string): (i: nat)
    ensures i <= |DayKeys|
    ensures i < |DayKeys| <==> day in DayKeys
    ensures i < |DayKeys| ==> DayKeys[i] == day
  {
    if day == DayKeys[0] then 0
    else if day == DayKeys[1] then 1
    else if day == DayKeys[2] then 2
    else if day == DayKeys[3] then 3
    else if day == DayKeys[4] then 4
    else if day == DayKeys[5] then 5
    else if day == DayKeys[6] then 6
    else 7
  }

  /** One submitted time slot before validation; either field may be missing. */
  datatype RawSlot = RawSlot(startTime: Option<TimeOfDay>, endTime: Option<TimeOfDay>)

  /** One validated time slot. */
  datatype Window = Window(startTime: TimeOfDay, endTime: TimeOfDay)

  /** A time slot must carry both `start_time` and `end_time`. */
  predicate WellShaped(s: RawSlot) {
    s.startTime.Some? && s.endTime.Some?
  }

  predicate AllWellShaped(raw: seq<RawSlot>) {
    forall i :: 0 <= i < |raw| ==> WellShaped(raw[i])
  }

  function ToWindows(raw: seq<RawSlot>): (ws: seq<Window>)
    requires AllWellShaped(raw)
    ensures |ws| == |raw|
    ensures forall i :: 0 <= i < |raw| ==>
      ws[i].startTime == raw[i].startTime.value && ws[i].endTime == raw[i].endTime.value
  {
    seq(|raw|, i requires 0 <= i < |raw| => Window(raw[i].startTime.value, raw[i].endTime.value))
  }

  /**
   * The slots submitted under `key` once every key has been lower-cased:
   * building a dictionary from the lower-cased keys keeps the value of the
   * LAST entry whose key lower-cases to `key`.
   */
  function LookupDay(avail: seq<(string, seq<RawSlot>)>, key: string): (r: Option<seq<RawSlot>>)
    ensures r.None? ==> forall i :: 0 <= i < |avail| ==> Lower(avail[i].0) != key
    ensures r.Some? ==> exists i :: 0 <= i < |avail| && Lower(avail[i].0) == key && avail[i].1 == r.value
    decreases |avail|
  {
    if |avail| == 0 then None
    else if Lower(avail[|avail| - 1].0) == key then Some(avail[|avail| - 1].1)
    else
      var init := avail[..|avail| - 1];
      assert forall i :: 0 <= i < |init| ==> init[i] == avail[i];
      LookupDay(init, key)
  }

  /** A key is absent exactly when no entry lower-cases to it; otherwise the last entry that does supplies the slots. */
  lemma {:induction false} LookupDayLast(avail: seq<(string, seq<RawSlot>)>, key: string)
    ensures LookupDay(avail, key).None? <==> forall i :: 0 <= i < |avail| ==> Lower(avail[i].0) != key
    ensures LookupDay(avail, key).Some? ==>
      exists i :: (0 <= i < |avail| && Lower(avail[i].0) == key && avail[i].1 == LookupDay(avail, key).value &&
                   forall j :: i < j < |avail| ==> Lower(avail[j].0) != key)
    decreases |avail|
  {
    var r := LookupDay(avail, key);
    if r.Some? {
      var last := |avail| - 1;
      if Lower(avail[last].0) == key {
        assert r.value == avail[last].1;
      } else {
        var init := avail[..last];
        assert r == LookupDay(init, key);
        LookupDayLast(init, key);
        var i :| 0 <= i < |init| && Lower(init[i].0) == key && init[i].1 == r.value &&
                 forall j :: i < j < |init| ==> Lower(init[j].0) != key;
        assert avail[i] == init[i];
        forall j | i < j < |avail| ensures Lower(avail[j].0) != key {
          if j < last { assert avail[j] == init[j]; }
        }
      }
    }
  }

  /** The submission is acceptable when every weekday that is present has only well-shaped slots. */
  predicate AvailabilityAcceptable(avail: seq<(string, seq<RawSlot>)>) {
    forall k :: k in DayKeys ==> LookupDay(avail, k).None? || AllWellShaped(LookupDay(avail, k).value)
  }

  /**
   * The validated availability, keyed by lower-case weekday. Only the seven
   * weekday keys survive; every other key is dropped silently, so the
   * serializer's own check for unknown days never fires. Each weekday is
   * optional.
   */
  function ValidateAvailability(avail: seq<(string, seq<RawSlot>)>): (r: Option<map<string, seq<Window>>>)
    ensures r.Some? <==> AvailabilityAcceptable(avail)
    ensures r.Some? ==> forall k :: k in r.value <==> k in DayKeys && LookupDay(avail, k).Some?
    ensures r.Some? ==> forall k :: k in r.value ==>
      AllWellShaped(LookupDay(avail, k).value) && r.value[k] == ToWindows(LookupDay(avail, k).value)
  {
    if AvailabilityAcceptable(avail) then
      Some(map k | k in DayKeys && LookupDay(avail, k).Some? :: ToWindows(LookupDay(avail, k).value))
    else None
  }

  /** An entry whose key is not a weekday in any letter case changes nothing in the validated result. */
  lemma UnknownDayIgnored(avail: seq<(string, seq<RawSlot>)>, key: string, raw: seq<RawSlot>)
    requires Lower(key) !in DayKeys
    ensures ValidateAvailability(avail + [(key, raw)]) == ValidateAvailability(avail)
  {
    var extended := avail + [(key, raw)];
    assert extended[..|avail|] == avail;
    forall k | k in DayKeys ensures LookupDay(extended, k) == LookupDay(avail, k) {
    }
    SameLookupsSameResult(extended, avail);
  }

  /** Weekday keys are matched without regard to letter case: "Monday" and "monday" submit the same day. */
  lemma DayKeyIgnoresCase(avail: seq<(string, seq<RawSlot>)>, key: string, other: string, raw: seq<RawSlot>)
    requires Lower(key) == Lower(other)
    ensures ValidateAvailability(avail + [(key, raw)]) == ValidateAvailability(avail + [(other, raw)])
  {
    var a := avail + [(key, raw)];
    var b := avail + [(other, raw)];
    assert a[..|avail|] == avail && b[..|avail|] == avail;
    forall k | k in DayKeys ensures LookupDay(a, k) == LookupDay(b, k) {
    }
    SameLookupsSameResult(a, b);
  }

  /** Validation depends on a submission only through what each weekday key looks up. */
  lemma SameLookupsSameResult(a: seq<(string, seq<RawSlot>)>, b: seq<(string, seq<RawSlot>)>)
    requires forall k :: k in DayKeys ==> LookupDay(a, k) == LookupDay(b, k)
    ensures ValidateAvailability(a) == ValidateAvailability(b)
  {
    assert AvailabilityAcceptable(a) == AvailabilityAcceptable(b);
    if AvailabilityAcceptable(a) {
      var ma := ValidateAvailability(a).value;
      var mb := ValidateAvailability(b).value;
      assert ma.Keys == mb.Keys;
      assert forall k :: k in ma ==> ma[k] == mb[k];
      assert ma == mb;
    }
  }
}
