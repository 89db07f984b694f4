/**
 * The settings page (app/src/Controllers/SettingsController.php): `index`
 * shows the user's schedule in their own timezone, `save` validates the form
 * and stores the schedule converted to UTC.
 *
 * Flash messages are stored translated, as `__` renders them for the
 * request's locale cookie and Accept-Language header; the clock enters as
 * the current weekday in a given zone.
 */
module SettingsController {
  import opened Wrappers
  import Text
  import Helpers
  import UserRepository
  import I18nService

  // ---------------------------------------------------------------- index

  /** The translation key of a status: ACTIVE, PAUSED and any other status read as active. */
  function StatusKey(status: UserRepository.Status): (key: string)
    ensures status.Schedule? <==> key == "status.schedule"
    ensures status.Queued? <==> key == "status.queued"
    ensures status.Sending? <==> key == "status.sending"
    ensures status.Error? <==> key == "status.error"
    ensures (status.Active? || status.Paused?) <==> key == "status.active"
  {
    match status
    case Schedule => "status.schedule"
    case Queued => "status.queued"
    case Sending => "status.sending"
    case Error => "status.error"
    case _ => "status.active"
  }

  /** The page locale: the stored language when the site speaks it, else "en". */
  function PageLocale(language: string): (locale: string)
    ensures I18nService.Supported(locale)
    ensures I18nService.Supported(language) ==> locale == language
  {
    if I18nService.Supported(language) then language else "en"
  }

  datatype IndexPage = IndexPage(locale: string, setCookie: Option<string>, statusKey: string, userHour: string)

  datatype IndexReply = ToHome | Page(page: IndexPage)

  /**
   * index: without an integer user id in the session, or when the user is
   * gone (the session is then destroyed), back to "/"; otherwise the page.
   */
  method Index(users: UserRepository.UserStore, session: Helpers.Session, zones: UserRepository.ZoneTable)
    returns (reply: IndexReply)
    modifies session
    ensures var uid := Helpers.SessionLookup(old(session.data), "user_id", Helpers.SNull);
            if !uid.SInt? then reply == ToHome && session.active && session.data == old(session.data)
            else if uid.i !in users.rows then reply == ToHome && !session.active && session.data == map[]
            else
              var u := users.rows[uid.i];
              reply == Page(IndexPage(PageLocale(u.language),
                                      I18nService.MakeLocaleCookieHeader(PageLocale(u.language)),
                                      StatusKey(u.status),
                                      UserRepository.FormatScheduleHourForTimezone(u.dayOfWeek, u.time,
                                                                                   u.timezone.GetOr("UTC"), zones)))
              && session.active && session.data == old(session.data)
  {
    session.StartSafe();
    var uid := session.Get("user_id", Helpers.SNull);
    if !uid.SInt? {
      return ToHome;
    }
    var user := users.FindById(uid.i);
    if user.None? {
      session.DestroySafe();
      return ToHome;
    }
    var u := user.value;
    var locale := PageLocale(u.language);
    reply := Page(IndexPage(locale, I18nService.MakeLocaleCookieHeader(locale), StatusKey(u.status),
                            UserRepository.FormatScheduleHourForTimezone(u.dayOfWeek, u.time, u.timezone.GetOr("UTC"), zones)));
  }

  // ---------------------------------------------------------------- save

  /** A posted form field, cast to string, '' when absent. */
  function Field(body: map<string, string>, name: string): string {
    if name in body then body[name] else ""
  }

  /** The hour matches /^\d{2}:\d{2}$/ (a trimmed value has no trailing newline for `$` to skip). */
  predicate HourShaped(hour: string) {
    |hour| == 5 && Text.IsDigit(hour[0]) && Text.IsDigit(hour[1]) && hour[2] == ':'
    && Text.IsDigit(hour[3]) && Text.IsDigit(hour[4])
  }

  /** What the form decides: a flash message key, or the row to store. */
  datatype Decision = Refuse(flashKey: string) | Store(lastfmUsername: string, dayUtc: int, timeUtc: string, timezone: string)

  /**
   * The validation chain of save, first failure first: missing fields or a
   * day outside 1..7, then the hour's shape, then the timezone, then the
   * Last.fm user (whose lookup may throw). `lastfmValid` is validateUser and
   * `todayIn` the current weekday in a zone.
   */
  function Decide(body: map<string, string>, zones: UserRepository.ZoneTable,
                  lastfmValid: string -> Result<bool>, todayIn: string -> UserRepository.Weekday): (d: Decision)
    ensures var lastfm, day, hour, tz := Text.Trim(Field(body, "lastfm_username")), Text.IntVal(Field(body, "day_of_week")),
                                         Text.Trim(Field(body, "hour")), Text.Trim(Field(body, "timezone"));
            var missing := lastfm == "" || tz == "" || hour == "" || day < 1 || day > 7;
            (missing ==> d == Refuse("error.missing_fields"))
            && (!missing && !HourShaped(hour) ==> d == Refuse("error.invalid_time"))
            && (!missing && HourShaped(hour) && tz !in zones ==> d == Refuse("error.invalid_timezone"))
            && (!missing && HourShaped(hour) && tz in zones ==>
                  (lastfmValid(lastfm).Err? ==> d == Refuse("error.generic"))
                  && (lastfmValid(lastfm) == Ok(false) ==> d == Refuse("error.lastfm_user_not_found"))
                  && (lastfmValid(lastfm) == Ok(true) ==>
                        var utc := UserRepository.ConvertLocalScheduleToUtc(day, hour, zones[tz], todayIn(tz));
                        utc.Some? && d == Store(lastfm, utc.value.0, utc.value.1, tz)))
  {
    var lastfm := Text.Trim(Field(body, "lastfm_username"));
    var day := Text.IntVal(Field(body, "day_of_week"));
    var hour := Text.Trim(Field(body, "hour"));
    var tz := Text.Trim(Field(body, "timezone"));
    if lastfm == "" || tz == "" || hour == "" || day < 1 || day > 7 then Refuse("error.missing_fields")
    else if !HourShaped(hour) then Refuse("error.invalid_time")
    else if tz !in zones then Refuse("error.invalid_timezone")
    else
      var known := lastfmValid(lastfm);
      if known.Err? then Refuse("error.generic")
      else if !known.value then Refuse("error.lastfm_user_not_found")
      else
        var utc := UserRepository.ConvertLocalScheduleToUtc(day, hour, zones[tz], todayIn(tz));
        if utc.None? then Refuse("error.generic")
        else Store(lastfm, utc.value.0, utc.value.1, tz)
  }

  /** Only the shape of the hour is checked: "99:99" passes where a real clock has no such time. */
  lemma HourRangeUnchecked()
    ensures HourShaped("99:99")
  {
  }

  /**
   * A stored schedule reads back on the settings page as the hour the user
   * typed, in the zone they chose, for any real clock time.
   */
  lemma StoredHourShowsBack(body: map<string, string>, zones: UserRepository.ZoneTable,
                            lastfmValid: string -> Result<bool>, todayIn: string -> UserRepository.Weekday, h: nat, m: nat)
    requires h < 24 && m < 60 && Text.Trim(Field(body, "hour")) == UserRepository.HourMinute(h, m)
    requires Decide(body, zones, lastfmValid, todayIn).Store?
    ensures var d := Decide(body, zones, lastfmValid, todayIn);
            UserRepository.FormatScheduleHourForTimezone(Some(d.dayUtc), Some(d.timeUtc), d.timezone, zones)
            == UserRepository.HourMinute(h, m)
  {
    var tz := Text.Trim(Field(body, "timezone"));
    var day := Text.IntVal(Field(body, "day_of_week"));
    StoredFields(body, zones, lastfmValid, todayIn);
    UserRepository.ConvertThenFormatRoundTrip(day, h, m, tz, zones, todayIn(tz));
  }

  /** A stored decision holds the form's timezone and its day and hour converted with that zone's offset. */
  lemma StoredFields(body: map<string, string>, zones: UserRepository.ZoneTable,
                     lastfmValid: string -> Result<bool>, todayIn: string -> UserRepository.Weekday)
    requires Decide(body, zones, lastfmValid, todayIn).Store?
    ensures var d, tz, day := Decide(body, zones, lastfmValid, todayIn), Text.Trim(Field(body, "timezone")),
                              Text.IntVal(Field(body, "day_of_week"));
            var utc := UserRepository.ConvertLocalScheduleToUtc(day, Text.Trim(Field(body, "hour")), zones[tz], todayIn(tz));
            1 <= day <= 7 && tz in zones && utc.Some?
            && d.dayUtc == utc.value.0 && d.timeUtc == utc.value.1 && d.timezone == tz
  {
    var lastfm, hour := Text.Trim(Field(body, "lastfm_username")), Text.Trim(Field(body, "hour"));
    var tz, day := Text.Trim(Field(body, "timezone")), Text.IntVal(Field(body, "day_of_week"));
    assert !(lastfm == "" || tz == "" || hour == "" || day < 1 || day > 7);
    assert HourShaped(hour) && tz in zones;
    assert lastfmValid(lastfm) == Ok(true);
  }

  /**
   * save: without an integer user id in the session, back to "/" with nothing
   * written; otherwise back to "/settings" with a flash message, and on
   * success exactly one settings write with status SCHEDULE.
   */
  method Save(users: UserRepository.UserStore, session: Helpers.Session, body: map<string, string>,
              zones: UserRepository.ZoneTable, lastfmValid: string -> Result<bool>,
              todayIn: string -> UserRepository.Weekday, now: string,
              catalogs: map<string, Helpers.Catalog>, cookie: Option<string>, acceptLanguage: string)
    returns (location: string)
    requires users.Valid() && "en" in catalogs
    modifies users, session
    ensures users.Valid() && users.nextId == old(users.nextId)
    ensures var uid := Helpers.SessionLookup(old(session.data), "user_id", Helpers.SNull);
            !uid.SInt? ==> location == "/" && users.rows == old(users.rows) && session.data == old(session.data)
    ensures var uid := Helpers.SessionLookup(old(session.data), "user_id", Helpers.SNull);
            var d := Decide(body, zones, lastfmValid, todayIn);
            uid.SInt? ==>
              location == "/settings"
              && (d.Refuse? ==>
                    users.rows == old(users.rows)
                    && session.data == old(session.data)["flash" := Helpers.SStr(
                         Helpers.Template(catalogs, d.flashKey, Helpers.CandidateLocale(None, cookie, acceptLanguage)))])
              && (d.Store? ==>
                    session.data == old(session.data)["flash" := Helpers.SStr(
                      Helpers.Template(catalogs, "settings.saved", Helpers.CandidateLocale(None, cookie, acceptLanguage)))]
                    && (uid.i in old(users.rows) ==>
                          users.rows == old(users.rows)[uid.i := old(users.rows)[uid.i].(
                            lastfmUsername := Some(d.lastfmUsername), dayOfWeek := Some(d.dayUtc),
                            time := Some(d.timeUtc), timezone := Some(d.timezone),
                            status := UserRepository.Schedule, errorCount := 0, updatedAt := now)])
                    && (uid.i !in old(users.rows) ==> users.rows == old(users.rows)))
  {
    session.StartSafe();
    var uid := session.Get("user_id", Helpers.SNull);
    if !uid.SInt? {
      return "/";
    }
    var d := Decide(body, zones, lastfmValid, todayIn);
    if d.Refuse? {
      var _ := session.Flash("flash", Helpers.Translate(catalogs, d.flashKey, [], None, cookie, acceptLanguage));
    } else {
      users.SaveSettings(uid.i, d.lastfmUsername, d.dayUtc, d.timeUtc, d.timezone, UserRepository.Schedule, now);
      var _ := session.Flash("flash", Helpers.Translate(catalogs, "settings.saved", [], None, cookie, acceptLanguage));
    }
    location := "/settings";
  }
}
