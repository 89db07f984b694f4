/**
 * The users table and its writers (app/src/Repositories/UserRepository.php).
 *
 * The table is a map from id to row with an auto-increment counter; the
 * unique index on (protocol, instance, username) is an invariant of the map.
 * Time is the UTC clock as (ISO weekday, hour, minute); a timezone is a name
 * looked up in a table of fixed offsets in minutes east of UTC, and a name
 * missing from the table is a timezone PHP refuses to construct.
 */
module UserRepository {
  import opened Wrappers
  import Text

  /** The `status` column. */
  datatype Status = Active | Schedule | Queued | Sending | Error | Paused

  /** The string stored in the `status` column. */
  function StatusName(s: Status): (name: string)
    ensures |name| >= 5
  {
    match s
    case Active => "ACTIVE"
    case Schedule => "SCHEDULE"
    case Queued => "QUEUED"
    case Sending => "SENDING"
    case Error => "ERROR"
    case Paused => "PAUSED"
  }

  /** One row of the users table; nullable columns are Options. */
  datatype User = User(
    id: int,
    protocol: string,
    instance: string,
    username: string,
    did: Option<string>,
    password: Option<string>,
    token: Option<string>,
    lastfmUsername: Option<string>,
    dayOfWeek: Option<int>,
    time: Option<string>,
    timezone: Option<string>,
    language: string,
    status: Status,
    callback: Option<string>,
    socialMessage: Option<string>,
    socialMontage: Option<string>,
    errorCount: int,
    createdAt: string,
    updatedAt: string)

  /** The columns of the unique index users_unique_account. */
  function AccountKey(u: User): (string, string, string) {
    (u.protocol, u.instance, u.username)
  }

  /** An ISO-8601 day of the week, Monday = 1 .. Sunday = 7. */
  type Weekday = d: int | 1 <= d <= 7 witness 1

  /** A UTC wall-clock reading, to the minute. */
  datatype Clock = Clock(weekday: Weekday, hour: nat, minute: nat) {
    ghost predicate Valid() { hour < 24 && minute < 60 }
  }

  /** Timezone names PHP accepts, with their offset in minutes east of UTC. */
  type ZoneTable = map<string, int>

  const MinutesPerDay: int := 1440
  const MinutesPerWeek: int := 10080

  /** The `%` of PHP: the remainder takes the sign of the dividend. */
  function PhpMod(a: int, n: int): (r: int)
    requires n > 0
    ensures a >= 0 ==> 0 <= r < n
    ensures a < 0 ==> -n < r <= 0
  {
    if a >= 0 then a % n else -((-a) % n)
  }

  /** format('H:i') of a clock. */
  function HourMinute(h: nat, m: nat): (s: string)
    requires h < 100 && m < 100
    ensures |s| == 5 && s[2] == ':'
  {
    Text.Pad2(h) + ":" + Text.Pad2(m)
  }

  lemma Pad2Injective(a: nat, b: nat)
    requires a < 100 && b < 100
    ensures Text.Pad2(a) == Text.Pad2(b) ==> a == b
  {
    if Text.Pad2(a) == Text.Pad2(b) {
      assert Text.DigitChar(a / 10) == Text.DigitChar(b / 10) && Text.DigitChar(a % 10) == Text.DigitChar(b % 10);
      assert a / 10 == b / 10 && a % 10 == b % 10;
    }
  }

  lemma HourMinuteInjective(h1: nat, m1: nat, h2: nat, m2: nat)
    requires h1 < 100 && m1 < 100 && h2 < 100 && m2 < 100
    ensures HourMinute(h1, m1) == HourMinute(h2, m2) <==> h1 == h2 && m1 == m2
  {
    var s1 := HourMinute(h1, m1);
    var s2 := HourMinute(h2, m2);
    if s1 == s2 {
      assert s1[..2] == Text.Pad2(h1) && s2[..2] == Text.Pad2(h2);
      assert s1[3..] == Text.Pad2(m1) && s2[3..] == Text.Pad2(m2);
      Pad2Injective(h1, h2);
      Pad2Injective(m1, m2);
    }
  }

  /**
   * The rows the due query selects: status SCHEDULE with day, time and
   * timezone set and a non-empty Last.fm username.
   */
  predicate IsDueCandidate(u: User) {
    u.status == Schedule && u.dayOfWeek.Some? && u.time.Some? && u.timezone.Some?
    && u.lastfmUsername.Some? && u.lastfmUsername.value != ""
  }

  /**
   * A candidate is due when its timezone exists and the UTC wall clock read
   * in that zone has the stored weekday and the first five characters of the
   * stored time. Reading the UTC wall-clock string in the user's zone keeps
   * its fields, so the zone only decides whether the row is skipped.
   */
  predicate IsDue(u: User, now: Clock, zones: ZoneTable)
    requires now.Valid()
  {
    IsDueCandidate(u) && u.timezone.value in zones
    && now.weekday == u.dayOfWeek.value
    && HourMinute(now.hour, now.minute) == Text.Prefix(u.time.value, 5)
  }

  /** The due rows among `rows`, in order. */
  function DueAmong(rows: seq<User>, now: Clock, zones: ZoneTable): (due: seq<User>)
    requires now.Valid()
    ensures |due| <= |rows|
    ensures forall u :: u in due <==> u in rows && IsDue(u, now, zones)
  {
    if rows == [] then []
    else
      var rest := DueAmong(rows[1..], now, zones);
      assert forall u :: u in rows <==> u == rows[0] || u in rows[1..];
      if IsDue(rows[0], now, zones) then [rows[0]] + rest else rest
  }

  /** The loop of findUsersDueForSchedule: the candidates kept in order when due. */
  method KeepDue(candidates: seq<User>, now: Clock, zones: ZoneTable) returns (due: seq<User>)
    requires now.Valid()
    ensures due == DueAmong(candidates, now, zones)
  {
    due := [];
    var i := 0;
    while i < |candidates|
      invariant 0 <= i <= |candidates|
      invariant due == DueAmong(candidates[..i], now, zones)
    {
      due := KeepIfDue(due, candidates[..i], candidates[i], now, zones);
      assert candidates[..i + 1] == candidates[..i] + [candidates[i]];
      i := i + 1;
    }
    assert candidates[..i] == candidates;
  }

  /** One turn of that loop: the candidate is appended when it is due. */
  method KeepIfDue(due: seq<User>, ghost seen: seq<User>, c: User, now: Clock, zones: ZoneTable)
    returns (due': seq<User>)
    requires now.Valid() && due == DueAmong(seen, now, zones)
    ensures due' == DueAmong(seen + [c], now, zones)
  {
    DueAmongAppend(seen, c, now, zones);
    due' := if IsDue(c, now, zones) then due + [c] else due;
  }

  /** Ids strictly increase along the sequence, so no row appears twice. */
  predicate Ascending(us: seq<User>) {
    forall i, j :: 0 <= i < j < |us| ==> us[i].id < us[j].id
  }

  lemma {:induction false} DueAmongAscending(rows: seq<User>, now: Clock, zones: ZoneTable)
    requires now.Valid() && Ascending(rows)
    ensures Ascending(DueAmong(rows, now, zones))
  {
    if rows != [] {
      DueAmongAscending(rows[1..], now, zones);
      var rest := DueAmong(rows[1..], now, zones);
      forall u | u in rest ensures rows[0].id < u.id {
        var k :| 0 <= k < |rows[1..]| && rows[1..][k] == u;
        assert rows[k + 1] == u;
      }
    }
  }

  lemma DueAmongAppend(rows: seq<User>, u: User, now: Clock, zones: ZoneTable)
    requires now.Valid()
    ensures DueAmong(rows + [u], now, zones)
            == DueAmong(rows, now, zones) + (if IsDue(u, now, zones) then [u] else [])
  {
    if rows == [] {
      assert [u][1..] == [];
    } else {
      assert (rows + [u])[1..] == rows[1..] + [u];
      DueAmongAppend(rows[1..], u, now, zones);
    }
  }

  /**
   * A due candidate whose stored time is "HH:MM…" is due exactly in that
   * UTC minute of that UTC weekday: seconds are never compared.
   */
  lemma DueIffExactMinute(u: User, now: Clock, zones: ZoneTable, h: nat, m: nat, rest: string)
    requires now.Valid() && IsDueCandidate(u) && u.timezone.value in zones
    requires h < 24 && m < 60 && u.time.value == HourMinute(h, m) + rest
    ensures IsDue(u, now, zones) <==> now.weekday == u.dayOfWeek.value && now.hour == h && now.minute == m
  {
    assert Text.Prefix(u.time.value, 5) == HourMinute(h, m);
    HourMinuteInjective(now.hour, now.minute, h, m);
  }

  /** A row whose timezone PHP rejects is never due, whatever the clock. */
  lemma UnknownZoneNeverDue(u: User, now: Clock, zones: ZoneTable)
    requires now.Valid() && u.timezone.Some? && u.timezone.value !in zones
    ensures !IsDue(u, now, zones)
  {
  }

  /** The minute of the week (Monday 00:00 = 0) of a weekday and a minute of its day. */
  function MinuteOfWeek(day: Weekday, minuteOfDay: int): int {
    (day - 1) * MinutesPerDay + minuteOfDay
  }

  /** The UTC (weekday, "HH:MM:00") pair of a minute of the week. */
  function ScheduleAt(w: int): (r: (Weekday, string))
    requires 0 <= w < MinutesPerWeek
    ensures |r.1| == 8 && r.1[2] == ':' && r.1[5..] == ":00"
  {
    var minuteOfDay := w % MinutesPerDay;
    (w / MinutesPerDay + 1, HourMinute(minuteOfDay / 60, minuteOfDay % 60) + ":00")
  }

  /** Distinct minutes of the week give distinct schedules. */
  lemma ScheduleAtInjective(w1: int, w2: int)
    requires 0 <= w1 < MinutesPerWeek && 0 <= w2 < MinutesPerWeek
    ensures ScheduleAt(w1) == ScheduleAt(w2) ==> w1 == w2
  {
    if ScheduleAt(w1) == ScheduleAt(w2) {
      var d1, d2 := w1 % MinutesPerDay, w2 % MinutesPerDay;
      assert ScheduleAt(w1).1[..5] == HourMinute(d1 / 60, d1 % 60);
      assert ScheduleAt(w2).1[..5] == HourMinute(d2 / 60, d2 % 60);
      HourMinuteInjective(d1 / 60, d1 % 60, d2 / 60, d2 % 60);
      DivModUnique(w1, w2, MinutesPerDay);
    }
  }

  lemma DivModUnique(a: int, b: int, n: int)
    requires n > 0 && a / n == b / n && a % n == b % n
    ensures a == b
  {
    assert a == (a / n) * n + a % n;
    assert b == (b / n) * n + b % n;
  }

  /**
   * convertLocalScheduleToUtc: the next `dayOfWeek` at or after today in the
   * user's zone, at the given local "HH:MM", expressed as a UTC weekday and
   * "HH:MM:00". The hour and minute are intval of the first two parts and may
   * overflow into the following day, as DateTime::setTime does. None when the
   * hour string has no ':' (PHP fails destructuring the missing minute).
   */
  function ConvertLocalScheduleToUtc(dayOfWeek: int, hour: string, offset: int, todayLocal: Weekday)
    : (r: Option<(Weekday, string)>)
    ensures r.Some? <==> ':' in hour
    ensures r.Some? ==> |r.value.1| == 8 && r.value.1[5..] == ":00"
  {
    var parts := Text.Split(hour, ':');
    if |parts| < 2 then None
    else
      var daysAhead := PhpMod(dayOfWeek - todayLocal + 7, 7);
      var targetDay := ((todayLocal - 1 + daysAhead) % 7) + 1;
      var local := MinuteOfWeek(targetDay, Text.IntVal(parts[0]) * 60 + Text.IntVal(parts[1]));
      Some(ScheduleAt((local - offset) % MinutesPerWeek))
  }

  /** "HH:MM" splits at ':' into its two fields, which read back as the hour and the minute. */
  lemma ReadHourMinute(h: nat, m: nat)
    requires h < 100 && m < 100
    ensures var parts := Text.Split(HourMinute(h, m), ':');
            |parts| == 2 && Text.IntVal(parts[0]) == h && Text.IntVal(parts[1]) == m
  {
    Text.SplitJoin([Text.Pad2(h), Text.Pad2(m)], ':');
    assert Text.Join([':'], [Text.Pad2(h), Text.Pad2(m)]) == HourMinute(h, m);
    Text.IntValPad2(h, []);
    Text.IntValPad2(m, []);
    assert Text.Pad2(h) + [] == Text.Pad2(h) && Text.Pad2(m) + [] == Text.Pad2(m);
  }

  /** "HH:MM:00" splits at ':' into three fields, which read back as the hour, the minute and 0. */
  lemma ReadTime(h: nat, m: nat)
    requires h < 100 && m < 100
    ensures var parts := Text.Split(HourMinute(h, m) + ":00", ':');
            |parts| == 3 && Text.IntVal(parts[0]) == h && Text.IntVal(parts[1]) == m && Text.IntVal(parts[2]) == 0
  {
    var ps := [Text.Pad2(h), Text.Pad2(m), Text.Pad2(0)];
    Text.SplitJoin(ps, ':');
    assert Text.Join([':'], ps[2..]) == Text.Pad2(0);
    assert Text.Join([':'], ps[1..]) == Text.Pad2(m) + ":" + Text.Pad2(0);
    assert Text.Join([':'], ps) == HourMinute(h, m) + ":00";
    Text.IntValPad2(h, []);
    Text.IntValPad2(m, []);
    Text.IntValPad2(0, []);
    assert Text.Pad2(h) + [] == Text.Pad2(h) && Text.Pad2(m) + [] == Text.Pad2(m) && Text.Pad2(0) + [] == Text.Pad2(0);
  }

  /**
   * For a day in 1..7 and a local "HH:MM", the converted UTC schedule is the
   * local minute of the week shifted back by the zone offset, modulo a week:
   * it does not depend on which weekday today is.
   */
  lemma ConvertShiftsByOffset(dayOfWeek: int, h: nat, m: nat, offset: int, todayLocal: Weekday)
    requires 1 <= dayOfWeek <= 7 && h < 100 && m < 100
    ensures ConvertLocalScheduleToUtc(dayOfWeek, HourMinute(h, m), offset, todayLocal)
            == Some(ScheduleAt((MinuteOfWeek(dayOfWeek, h * 60 + m) - offset) % MinutesPerWeek))
  {
    ReadHourMinute(h, m);
    var daysAhead := PhpMod(dayOfWeek - todayLocal + 7, 7);
    assert daysAhead == (dayOfWeek - todayLocal + 7) % 7;
    assert ((todayLocal - 1 + daysAhead) % 7) + 1 == dayOfWeek;
  }

  /**
   * The minute of the day a stored time shows in a zone: setTime(hh, mm, ss)
   * carries whole minutes of `ss` (rounding down), then the offset applies.
   */
  function LocalMinuteOfDay(hh: int, mm: int, ss: int, offset: int): (r: int)
    ensures 0 <= r < MinutesPerDay
  {
    (hh * 60 + mm + ss / 60 + offset) % MinutesPerDay
  }

  /** The offset of a zone, UTC when PHP rejects the name. */
  function ZoneOffset(zones: ZoneTable, timezone: string): (offset: int)
    ensures timezone in zones ==> offset == zones[timezone]
    ensures timezone !in zones ==> offset == 0
  {
    if timezone in zones then zones[timezone] else 0
  }

  /**
   * formatScheduleHourForTimezone: the stored UTC schedule (day 7 and
   * "09:00:00" when unset) rendered as "HH:MM" in the given zone, or in UTC
   * when the zone is unknown. Missing fields of the time read as 0.
   */
  function FormatScheduleHourForTimezone(dayOfWeek: Option<int>, time: Option<string>,
                                         timezone: string, zones: ZoneTable): (r: string)
    ensures |r| == 5 && r[2] == ':'
  {
    var parts := Text.Split(time.GetOr("09:00:00"), ':');
    var hh := Text.IntVal(parts[0]);
    var mm := if |parts| > 1 then Text.IntVal(parts[1]) else 0;
    var ss := if |parts| > 2 then Text.IntVal(parts[2]) else 0;
    var local := LocalMinuteOfDay(hh, mm, ss, ZoneOffset(zones, timezone));
    HourMinute(local / 60, local % 60)
  }

  /** An unknown zone renders as UTC. */
  lemma FormatUnknownZoneIsUtc(dayOfWeek: Option<int>, time: Option<string>, timezone: string, zones: ZoneTable)
    requires timezone !in zones
    ensures FormatScheduleHourForTimezone(dayOfWeek, time, timezone, zones)
            == FormatScheduleHourForTimezone(dayOfWeek, time, "UTC", map["UTC" := 0])
  {
  }

  /** A stored "HH:MM:00" is shown as its minute of the day shifted by the zone offset. */
  lemma FormatStoredTime(dayOfWeek: Option<int>, h: nat, m: nat, timezone: string, zones: ZoneTable)
    requires h < 100 && m < 100
    ensures var local := LocalMinuteOfDay(h, m, 0, ZoneOffset(zones, timezone));
            FormatScheduleHourForTimezone(dayOfWeek, Some(HourMinute(h, m) + ":00"), timezone, zones)
            == HourMinute(local / 60, local % 60)
  {
    ReadTime(h, m);
  }

  /** With no schedule stored, the default Sunday 09:00 UTC is shown as "09:00" in UTC. */
  lemma FormatDefaultsToNineUtc(dayOfWeek: Option<int>)
    ensures FormatScheduleHourForTimezone(dayOfWeek, None, "UTC", map["UTC" := 0]) == "09:00"
  {
    var zones: ZoneTable := map["UTC" := 0];
    assert HourMinute(9, 0) == "09:00";
    assert HourMinute(9, 0) + ":00" == "09:00:00";
    assert ZoneOffset(zones, "UTC") == 0;
    assert LocalMinuteOfDay(9, 0, 0, 0) == 540;
    assert 540 / 60 == 9 && 540 % 60 == 0;
    FormatStoredTime(dayOfWeek, 9, 0, "UTC", zones);
  }

  /**
   * The round trip the settings page relies on: converting a local day and
   * "HH:MM" to UTC with a zone's offset and rendering the stored result back
   * in the same zone gives the original "HH:MM", whatever weekday today is.
   */
  lemma ConvertThenFormatRoundTrip(dayOfWeek: int, h: nat, m: nat, tz: string, zones: ZoneTable, todayLocal: Weekday)
    requires 1 <= dayOfWeek <= 7 && h < 24 && m < 60 && tz in zones
    ensures ConvertLocalScheduleToUtc(dayOfWeek, HourMinute(h, m), zones[tz], todayLocal).Some?
    ensures FormatScheduleHourForTimezone(Some(ConvertLocalScheduleToUtc(dayOfWeek, HourMinute(h, m), zones[tz], todayLocal).value.0),
                                          Some(ConvertLocalScheduleToUtc(dayOfWeek, HourMinute(h, m), zones[tz], todayLocal).value.1),
                                          tz, zones)
            == HourMinute(h, m)
  {
    var w := SlotShowingBack(dayOfWeek, h, m, zones[tz], tz, zones, todayLocal);
  }

  /** The UTC minute of the week a local schedule is stored at, which renders back as the local HH:MM. */
  lemma SlotShowingBack(dayOfWeek: int, h: nat, m: nat, offset: int, tz: string, zones: ZoneTable, todayLocal: Weekday)
    returns (w: int)
    requires 1 <= dayOfWeek <= 7 && h < 24 && m < 60 && tz in zones && zones[tz] == offset
    ensures 0 <= w < MinutesPerWeek
    ensures ConvertLocalScheduleToUtc(dayOfWeek, HourMinute(h, m), offset, todayLocal) == Some(ScheduleAt(w))
    ensures FormatScheduleHourForTimezone(Some(ScheduleAt(w).0), Some(ScheduleAt(w).1), tz, zones) == HourMinute(h, m)
  {
    w := (MinuteOfWeek(dayOfWeek, h * 60 + m) - offset) % MinutesPerWeek;
    MinuteOfItsDay(dayOfWeek, h * 60 + m);
    StoredSlotShowsBack(MinuteOfWeek(dayOfWeek, h * 60 + m), w, h, m, offset, tz, zones);
    ConvertToSlot(dayOfWeek, h, m, offset, todayLocal, w);
  }

  lemma ConvertToSlot(dayOfWeek: int, h: nat, m: nat, offset: int, todayLocal: Weekday, w: int)
    requires 1 <= dayOfWeek <= 7 && h < 24 && m < 60
    requires w == (MinuteOfWeek(dayOfWeek, h * 60 + m) - offset) % MinutesPerWeek
    ensures 0 <= w < MinutesPerWeek
    ensures ConvertLocalScheduleToUtc(dayOfWeek, HourMinute(h, m), offset, todayLocal) == Some(ScheduleAt(w))
  {
    ConvertShiftsByOffset(dayOfWeek, h, m, offset, todayLocal);
  }

  /** The UTC slot w stored for minute x of the local week renders back, in the same zone, as x's HH:MM. */
  lemma StoredSlotShowsBack(x: int, w: int, h: nat, m: nat, offset: int, tz: string, zones: ZoneTable)
    requires h < 24 && m < 60 && tz in zones && zones[tz] == offset && x % MinutesPerDay == h * 60 + m
    requires w == (x - offset) % MinutesPerWeek
    ensures FormatScheduleHourForTimezone(Some(ScheduleAt(w).0), Some(ScheduleAt(w).1), tz, zones) == HourMinute(h, m)
  {
    var d := w % MinutesPerDay;
    ShiftedMinuteShowsBack(x, offset, h * 60 + m);
    FormatShowsLocal(Some(w / MinutesPerDay + 1), d / 60, d % 60, tz, zones, h, m);
  }

  lemma MinuteOfItsDay(day: Weekday, minuteOfDay: int)
    requires 0 <= minuteOfDay < MinutesPerDay
    ensures MinuteOfWeek(day, minuteOfDay) % MinutesPerDay == minuteOfDay
  {
  }

  /** The minute of the day stored for x, shifted forward by the offset again, is x's minute of the day. */
  lemma ShiftedMinuteShowsBack(x: int, offset: int, minuteOfDay: int)
    requires x % MinutesPerDay == minuteOfDay
    ensures var d := ((x - offset) % MinutesPerWeek) % MinutesPerDay;
            LocalMinuteOfDay(d / 60, d % 60, 0, offset) == minuteOfDay
  {
    var d := ((x - offset) % MinutesPerWeek) % MinutesPerDay;
    assert (d / 60) * 60 + d % 60 == d;
    ModShift(x, offset);
  }

  /** A stored time whose shifted minute of the day is h:m is shown as "HH:MM" of h and m. */
  lemma FormatShowsLocal(dayOfWeek: Option<int>, uh: nat, um: nat, tz: string, zones: ZoneTable, h: nat, m: nat)
    requires uh < 100 && um < 100 && h < 24 && m < 60 && tz in zones
    requires LocalMinuteOfDay(uh, um, 0, zones[tz]) == h * 60 + m
    ensures FormatScheduleHourForTimezone(dayOfWeek, Some(HourMinute(uh, um) + ":00"), tz, zones) == HourMinute(h, m)
  {
    var local := LocalMinuteOfDay(uh, um, 0, ZoneOffset(zones, tz));
    assert local / 60 == h && local % 60 == m;
    FormatStoredTime(dayOfWeek, uh, um, tz, zones);
  }

  /** Shifting back by an offset modulo a week, then forward modulo a day, lands on the same minute of the day. */
  lemma ModShift(x: int, offset: int)
    ensures (((x - offset) % MinutesPerWeek) % MinutesPerDay + offset) % MinutesPerDay == x % MinutesPerDay
  {
    var w := (x - offset) % MinutesPerWeek;
    var q := (x - offset) / MinutesPerWeek;
    assert x - offset == q * MinutesPerWeek + w;
    var d := w % MinutesPerDay;
    assert w == (w / MinutesPerDay) * MinutesPerDay + d;
    var k := q * 7 + w / MinutesPerDay;
    assert d + offset == x - k * MinutesPerDay;
    ModMultiple(x, k);
  }

  lemma ModMultiple(x: int, k: int)
    ensures (x - k * MinutesPerDay) % MinutesPerDay == x % MinutesPerDay
  {
    var r := x % MinutesPerDay;
    var q := x / MinutesPerDay;
    assert x - k * MinutesPerDay == (q - k) * MinutesPerDay + r;
  }

  /**
   * End to end: a user whose schedule was stored from a local day and
   * "HH:MM" in a zone is due exactly in the UTC minute of the week the
   * conversion produced.
   */
  lemma ScheduledUserDueExactlyAt(u: User, now: Clock, zones: ZoneTable, w: int)
    requires now.Valid() && IsDueCandidate(u) && u.timezone.value in zones
    requires 0 <= w < MinutesPerWeek && (u.dayOfWeek.value, u.time.value) == ScheduleAt(w)
    ensures IsDue(u, now, zones) <==> MinuteOfWeek(now.weekday, now.hour * 60 + now.minute) == w
  {
    var d := w % MinutesPerDay;
    DueIffExactMinute(u, now, zones, d / 60, d % 60, ":00");
    var nw := MinuteOfWeek(now.weekday, now.hour * 60 + now.minute);
    assert 0 <= nw < MinutesPerWeek;
    assert nw / MinutesPerDay == now.weekday - 1 && nw % MinutesPerDay == now.hour * 60 + now.minute;
    if nw == w {
      assert now.hour == d / 60 && now.minute == d % 60;
    }
    if now.weekday == u.dayOfWeek.value && now.hour == d / 60 && now.minute == d % 60 {
      assert now.hour * 60 + now.minute == d;
      DivModUnique(nw, w, MinutesPerDay);
    }
  }

  /**
   * absolutePath: the application root joined with `relative` after its
   * leading '/' characters are stripped.
   */
  function AbsolutePath(root: string, relative: string): (p: string)
    ensures p == root + "/" + Text.LTrimChar(relative, '/')
    ensures Text.StartsWith(p, root + "/")
  {
    var r := Text.LTrimChar(relative, '/');
    assert (root + "/" + r)[..|root + "/"|] == root + "/";
    root + "/" + r
  }

  /** Which rows a read query selects. */
  datatype Query = DueCandidates | QueuedRows

  predicate Matches(q: Query, u: User) {
    match q
    case DueCandidates => IsDueCandidate(u)
    case QueuedRows => u.status == Queued
  }

  /** A row for a newly created account: status ACTIVE, no errors, no schedule. */
  function NewAccount(id: int, protocol: string, instance: string, username: string,
                      did: Option<string>, password: Option<string>, token: Option<string>,
                      language: string, now: string): (u: User)
    ensures u.id == id && AccountKey(u) == (protocol, instance, username)
    ensures u.status == Active && u.errorCount == 0
    ensures u.dayOfWeek.None? && u.time.None? && u.timezone.None? && u.lastfmUsername.None?
    ensures u.createdAt == now && u.updatedAt == now
  {
    User(id, protocol, instance, username, did, password, token, None, None, None, None,
         language, Active, None, None, None, 0, now, now)
  }

  /** The users table. */
  /** No two rows share a (protocol, instance, username) account: the table's unique index. */
  ghost predicate UniqueAccounts(rows: map<int, User>) {
    forall a, b {:trigger AccountKey(rows[a]), AccountKey(rows[b])} ::
      a in rows && b in rows && AccountKey(rows[a]) == AccountKey(rows[b]) ==> a == b
  }

  /** Rewriting a row without touching its account keeps the accounts unique. */
  lemma SameAccountStaysUnique(rows: map<int, User>, id: int, u: User)
    requires UniqueAccounts(rows) && id in rows && AccountKey(u) == AccountKey(rows[id])
    ensures UniqueAccounts(rows[id := u])
  {
    var r := rows[id := u];
    forall a, b | a in r && b in r && AccountKey(r[a]) == AccountKey(r[b])
      ensures a == b
    {
      assert AccountKey(r[a]) == AccountKey(rows[a]) && AccountKey(r[b]) == AccountKey(rows[b]);
    }
  }

  class UserStore {
    var rows: map<int, User>
    var nextId: int

    /** Ids are positive, below the counter and match their row; accounts are unique. */
    ghost predicate Valid()
      reads this
    {
      0 < nextId
      && (forall id :: id in rows ==> 0 < id < nextId && rows[id].id == id)
      && UniqueAccounts(rows)
    }

    constructor ()
      ensures Valid() && rows == map[] && nextId == 1
    {
      rows := map[];
      nextId := 1;
    }

    /** findById. */
    function FindById(id: int): (r: Option<User>)
      reads this
      ensures r.Some? <==> id in rows
      ensures r.Some? ==> r.value == rows[id] && r.value in rows.Values
    {
      if id in rows then Some(rows[id]) else None
    }

    ghost predicate HasAccount(protocol: string, instance: string, username: string)
      reads this
    {
      exists id :: id in rows && AccountKey(rows[id]) == (protocol, instance, username)
    }

    /** findByProtocolAndUsername. */
    method FindByAccount(protocol: string, instance: string, username: string) returns (r: Option<User>)
      requires Valid()
      ensures r.Some? <==> HasAccount(protocol, instance, username)
      ensures r.Some? ==> r.value.id in rows && rows[r.value.id] == r.value
                          && AccountKey(r.value) == (protocol, instance, username)
    {
      var id := 1;
      while id < nextId
        invariant 1 <= id <= nextId
        invariant forall k :: k in rows && k < id ==> AccountKey(rows[k]) != (protocol, instance, username)
      {
        if id in rows && AccountKey(rows[id]) == (protocol, instance, username) {
          return Some(rows[id]);
        }
        id := id + 1;
      }
      return None;
    }

    /** The rows a query selects, each once, in ascending id order (the order of a table scan). */
    method Select(q: Query) returns (result: seq<User>)
      requires Valid()
      ensures forall u :: u in result <==> u in rows.Values && Matches(q, u)
      ensures forall u :: u in result ==> u.id in rows && rows[u.id] == u
      ensures Ascending(result)
    {
      result := [];
      var id := 1;
      while id < nextId
        invariant 1 <= id <= nextId
        invariant forall k :: k in rows && k < id && Matches(q, rows[k]) ==> rows[k] in result
        invariant forall u :: u in result ==> u.id in rows && u.id < id && rows[u.id] == u && Matches(q, u)
        invariant Ascending(result)
      {
        if id in rows && Matches(q, rows[id]) {
          result := result + [rows[id]];
        }
        id := id + 1;
      }
      forall u | u in rows.Values && Matches(q, u) ensures u in result {
        var k := ValuesWitness(rows, u);
      }
    }

    /** findUsersDueForSchedule: every due row, each once; a bad timezone only skips its row. */
    method FindUsersDueForSchedule(now: Clock, zones: ZoneTable) returns (due: seq<User>)
      requires Valid() && now.Valid()
      ensures forall u :: u in due <==> u in rows.Values && IsDue(u, now, zones)
      ensures Ascending(due)
    {
      var candidates := Select(DueCandidates);
      due := KeepDue(candidates, now, zones);
      DueAmongAscending(candidates, now, zones);
    }

    /** findQueuedUsers. */
    method FindQueuedUsers() returns (queued: seq<User>)
      requires Valid()
      ensures forall u :: u in queued <==> u in rows.Values && u.status == Queued
      ensures Ascending(queued)
    {
      queued := Select(QueuedRows);
    }

    /** countActiveUsers: rows with status ACTIVE or SCHEDULE. */
    function CountActiveUsers(): (n: nat)
      reads this
      ensures n <= CountTotalUsers()
      ensures n == 0 <==> forall id :: id in rows ==> rows[id].status != Active && rows[id].status != Schedule
      ensures (forall id :: id in rows ==> rows[id].status == Active || rows[id].status == Schedule) ==> n == CountTotalUsers()
    {
      var active := set id | id in rows && rows[id].status in {Active, Schedule};
      assert active <= rows.Keys;
      SubsetCard(active, rows.Keys);
      assert (forall id :: id in rows ==> rows[id].status == Active || rows[id].status == Schedule) ==> active == rows.Keys;
      assert (forall id :: id in rows ==> rows[id].status != Active && rows[id].status != Schedule) ==> active == {};
      assert |active| == 0 <==> active == {};
      assert forall id :: id in rows && (rows[id].status == Active || rows[id].status == Schedule) ==> id in active;
      |active|
    }

    /** countTotalUsers. */
    function CountTotalUsers(): (n: nat)
      reads this
      ensures n == |rows.Keys|
    {
      |rows.Keys|
    }

    /** upsertAtUser: update did, password and language of an existing account, else insert one. */
    method UpsertAtUser(instance: string, username: string, did: string, encryptedPassword: string,
                        language: string, now: string) returns (id: int)
      modifies this
      requires Valid()
      ensures Valid()
      ensures old(HasAccount("at", instance, username)) ==>
                id in old(rows) && AccountKey(old(rows)[id]) == ("at", instance, username)
                && rows == old(rows)[id := old(rows)[id].(did := Some(did), password := Some(encryptedPassword),
                                                          language := language, updatedAt := now)]
                && nextId == old(nextId)
      ensures !old(HasAccount("at", instance, username)) ==>
                id == old(nextId) && id !in old(rows) && nextId == old(nextId) + 1
                && rows == old(rows)[id := NewAccount(id, "at", instance, username, Some(did),
                                                      Some(encryptedPassword), None, language, now)]
    {
      var existing := FindByAccount("at", instance, username);
      if existing.Some? {
        id := existing.value.id;
        rows := rows[id := existing.value.(did := Some(did), password := Some(encryptedPassword),
                                           language := language, updatedAt := now)];
      } else {
        id := Insert(NewAccount(nextId, "at", instance, username, Some(did), Some(encryptedPassword),
                                None, language, now));
      }
    }

    /** upsertMastodonUser: update token and language of an existing account, else insert one. */
    method UpsertMastodonUser(instance: string, username: string, encryptedToken: string,
                              language: string, now: string) returns (id: int)
      modifies this
      requires Valid()
      ensures Valid()
      ensures old(HasAccount("mastodon", instance, username)) ==>
                id in old(rows) && AccountKey(old(rows)[id]) == ("mastodon", instance, username)
                && rows == old(rows)[id := old(rows)[id].(token := Some(encryptedToken), language := language,
                                                          updatedAt := now)]
                && nextId == old(nextId)
      ensures !old(HasAccount("mastodon", instance, username)) ==>
                id == old(nextId) && id !in old(rows) && nextId == old(nextId) + 1
                && rows == old(rows)[id := NewAccount(id, "mastodon", instance, username, None, None,
                                                      Some(encryptedToken), language, now)]
    {
      var existing := FindByAccount("mastodon", instance, username);
      if existing.Some? {
        id := existing.value.id;
        rows := rows[id := existing.value.(token := Some(encryptedToken), language := language, updatedAt := now)];
      } else {
        id := Insert(NewAccount(nextId, "mastodon", instance, username, None, None, Some(encryptedToken),
                                language, now));
      }
    }

    /**
     * INSERT with the next auto-increment id; fails, changing nothing, when
     * the account already exists (the unique index).
     */
    method InsertChecked(u: User) returns (r: Result<int>)
      modifies this
      requires Valid() && u.id == nextId
      ensures Valid()
      ensures old(HasAccount(u.protocol, u.instance, u.username)) ==>
                r.Err? && rows == old(rows) && nextId == old(nextId)
      ensures !old(HasAccount(u.protocol, u.instance, u.username)) ==>
                r == Ok(old(nextId)) && rows == old(rows)[old(nextId) := u] && nextId == old(nextId) + 1
    {
      var existing := FindByAccount(u.protocol, u.instance, u.username);
      if existing.Some? {
        r := Err("UNIQUE constraint failed: users.protocol, users.instance, users.username");
      } else {
        var id := Insert(u);
        r := Ok(id);
      }
    }

    method Insert(u: User) returns (id: int)
      modifies this
      requires Valid() && u.id == nextId && !HasAccount(u.protocol, u.instance, u.username)
      ensures Valid()
      ensures id == old(nextId) && id !in old(rows) && nextId == old(nextId) + 1 && rows == old(rows)[id := u]
    {
      id := nextId;
      rows := rows[id := u];
      nextId := nextId + 1;
    }

    /** deleteById. */
    method DeleteById(id: int)
      modifies this
      requires Valid()
      ensures Valid() && rows == old(rows) - {id} && nextId == old(nextId)
    {
      rows := rows - {id};
    }

    /** updateLanguage. */
    method UpdateLanguage(userId: int, language: string, now: string)
      modifies this
      requires Valid()
      ensures Valid() && nextId == old(nextId)
      ensures userId in old(rows) ==> rows == old(rows)[userId := old(rows)[userId].(language := language, updatedAt := now)]
      ensures userId !in old(rows) ==> rows == old(rows)
    {
      if userId in rows {
        var updated := rows[userId].(language := language, updatedAt := now);
        SameAccountStaysUnique(rows, userId, updated);
        rows := rows[userId := updated];
      }
    }

    /** saveSettings: the schedule columns and status, with the error count reset. */
    method SaveSettings(userId: int, lastfmUsername: string, dayOfWeekUtc: int, timeUtc: string,
                        timezone: string, status: Status, now: string)
      modifies this
      requires Valid()
      ensures Valid() && nextId == old(nextId)
      ensures userId in old(rows) ==>
                rows == old(rows)[userId := old(rows)[userId].(lastfmUsername := Some(lastfmUsername),
                  dayOfWeek := Some(dayOfWeekUtc), time := Some(timeUtc), timezone := Some(timezone),
                  status := status, errorCount := 0, updatedAt := now)]
      ensures userId !in old(rows) ==> rows == old(rows)
    {
      if userId in rows {
        var updated := rows[userId].(lastfmUsername := Some(lastfmUsername),
          dayOfWeek := Some(dayOfWeekUtc), time := Some(timeUtc), timezone := Some(timezone),
          status := status, errorCount := 0, updatedAt := now);
        SameAccountStaysUnique(rows, userId, updated);
        rows := rows[userId := updated];
      }
    }

    /** setCallback. */
    method SetCallback(userId: int, message: string, now: string)
      modifies this
      requires Valid()
      ensures Valid() && nextId == old(nextId)
      ensures userId in old(rows) ==> rows == old(rows)[userId := old(rows)[userId].(callback := Some(message), updatedAt := now)]
      ensures userId !in old(rows) ==> rows == old(rows)
    {
      if userId in rows {
        var updated := rows[userId].(callback := Some(message), updatedAt := now);
        SameAccountStaysUnique(rows, userId, updated);
        rows := rows[userId := updated];
      }
    }

    /** markQueued: status QUEUED with the given montage path. */
    method MarkQueued(userId: int, montagePath: string, now: string)
      modifies this
      requires Valid()
      ensures Valid() && nextId == old(nextId)
      ensures userId in old(rows) ==>
                rows == old(rows)[userId := old(rows)[userId].(status := Queued, socialMontage := Some(montagePath), updatedAt := now)]
      ensures userId !in old(rows) ==> rows == old(rows)
    {
      if userId in rows {
        var updated := rows[userId].(status := Queued, socialMontage := Some(montagePath), updatedAt := now);
        SameAccountStaysUnique(rows, userId, updated);
        rows := rows[userId := updated];
      }
    }

    /** markSending. */
    method MarkSending(userId: int, now: string)
      modifies this
      requires Valid()
      ensures Valid() && nextId == old(nextId)
      ensures userId in old(rows) ==> rows == old(rows)[userId := old(rows)[userId].(status := Sending, updatedAt := now)]
      ensures userId !in old(rows) ==> rows == old(rows)
    {
      if userId in rows {
        var updated := rows[userId].(status := Sending, updatedAt := now);
        SameAccountStaysUnique(rows, userId, updated);
        rows := rows[userId := updated];
      }
    }

    /** markScheduledAfterSend: back to SCHEDULE with the posted text and no errors. */
    method MarkScheduledAfterSend(userId: int, socialMessage: string, now: string)
      modifies this
      requires Valid()
      ensures Valid() && nextId == old(nextId)
      ensures userId in old(rows) ==>
                rows == old(rows)[userId := old(rows)[userId].(status := Schedule, socialMessage := Some(socialMessage),
                                                                errorCount := 0, updatedAt := now)]
      ensures userId !in old(rows) ==> rows == old(rows)
    {
      if userId in rows {
        var updated := rows[userId].(status := Schedule, socialMessage := Some(socialMessage),
                                             errorCount := 0, updatedAt := now);
        SameAccountStaysUnique(rows, userId, updated);
        rows := rows[userId := updated];
      }
    }

    /** markScheduledAfterGiveUp: back to SCHEDULE; the error count is kept. */
    method MarkScheduledAfterGiveUp(userId: int, reason: string, now: string)
      modifies this
      requires Valid()
      ensures Valid() && nextId == old(nextId)
      ensures userId in old(rows) ==>
                rows == old(rows)[userId := old(rows)[userId].(status := Schedule,
                                                                callback := Some(GiveUpPrefix + reason), updatedAt := now)]
      ensures userId !in old(rows) ==> rows == old(rows)
    {
      if userId in rows {
        var updated := rows[userId].(status := Schedule, callback := Some(GiveUpPrefix + reason), updatedAt := now);
        SameAccountStaysUnique(rows, userId, updated);
        rows := rows[userId := updated];
      }
    }

    /**
     * incrementError: the stored count plus one (1 for a missing row), with
     * status QUEUED for a temporary failure and ERROR otherwise.
     */
    method IncrementError(userId: int, message: string, temporary: bool, now: string) returns (count: int)
      modifies this
      requires Valid()
      ensures Valid() && nextId == old(nextId)
      ensures count == (if userId in old(rows) then old(rows)[userId].errorCount else 0) + 1
      ensures userId in old(rows) ==>
                rows == old(rows)[userId := old(rows)[userId].(errorCount := count,
                  status := if temporary then Queued else Error, callback := Some(message), updatedAt := now)]
      ensures userId !in old(rows) ==> rows == old(rows)
    {
      var user := FindById(userId);
      count := (if user.Some? then user.value.errorCount else 0) + 1;
      if userId in rows {
        var updated := rows[userId].(errorCount := count,
          status := if temporary then Queued else Error, callback := Some(message), updatedAt := now);
        SameAccountStaysUnique(rows, userId, updated);
        rows := rows[userId := updated];
      }
    }
  }

  /** The callback text written when the send sweep gives up on a user for the week. */
  const GiveUpPrefix: string := "Giving up until next week: "

  /** A key under which a map holds a given value. */
  lemma ValuesWitness<K, V>(m: map<K, V>, v: V) returns (k: K)
    requires v in m.Values
    ensures k in m && m[k] == v
  {
    k :| k in m && m[k] == v;
  }

  /** Each row a query returned is the row stored under its id. */
  lemma FoundRowsStored(rows: map<int, User>, found: seq<User>)
    requires forall id :: id in rows ==> rows[id].id == id
    requires forall u :: u in found ==> u in rows.Values
    ensures forall i :: 0 <= i < |found| ==> found[i].id in rows && rows[found[i].id] == found[i]
  {
    forall i | 0 <= i < |found|
      ensures found[i].id in rows && rows[found[i].id] == found[i]
    {
      var id := ValuesWitness(rows, found[i]);
    }
  }

  lemma SubsetCard<T>(a: set<T>, b: set<T>)
    requires a <= b
    ensures |a| <= |b|
  {
    if a != {} {
      var x :| x in a;
      SubsetCard(a - {x}, b - {x});
    }
  }
}
