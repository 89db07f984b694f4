/**
 * The admin area (app/src/Controllers/AdminController.php): the dashboard's
 * filters and pagination, the WHERE clause built from the filters, the user
 * detail endpoint and the login.
 *
 * SQL runs nowhere here: a condition of the WHERE clause is given the
 * meaning SQL gives it over a row, with SQLite's LIKE as a parameter.
 */
module AdminController {
  import opened Wrappers
  import Text
  import Json
  import Helpers
  import UserRepository

  // ---------------------------------------------------------------- filters and pagination

  datatype Filters = Filters(protocol: string, status: string, search: string, language: string, limit: int, page: int)

  /** A query parameter, as a string, '' when absent. */
  function Param(query: map<string, string>, name: string): string {
    if name in query then query[name] else ""
  }

  /**
   * The dashboard filters: the text filters trimmed; the page size one of
   * 25, 50 and 100 (anything else becomes 25); the page at least 1.
   */
  function NormaliseFilters(query: map<string, string>): (f: Filters)
    ensures f.limit == 25 || f.limit == 50 || f.limit == 100
    ensures "limit" in query && Text.IntVal(query["limit"]) in {25, 50, 100} ==> f.limit == Text.IntVal(query["limit"])
    ensures "limit" in query && Text.IntVal(query["limit"]) !in {25, 50, 100} ==> f.limit == 25
    ensures f.page >= 1
    ensures "page" in query && Text.IntVal(query["page"]) >= 1 ==> f.page == Text.IntVal(query["page"])
    ensures "page" !in query ==> f.page == 1
    ensures f.protocol == Text.Trim(Param(query, "protocol")) && f.status == Text.Trim(Param(query, "status"))
    ensures f.search == Text.Trim(Param(query, "search")) && f.language == Text.Trim(Param(query, "language"))
  {
    var limit := if "limit" in query then Text.IntVal(query["limit"]) else 25;
    var page := if "page" in query then Text.IntVal(query["page"]) else 1;
    Filters(Text.Trim(Param(query, "protocol")), Text.Trim(Param(query, "status")),
            Text.Trim(Param(query, "search")), Text.Trim(Param(query, "language")),
            if limit in {25, 50, 100} then limit else 25,
            if page < 1 then 1 else page)
  }

  /** The OFFSET of a page: the rows of the pages before it. */
  function Offset(f: Filters): (offset: int)
    requires f.page >= 1 && f.limit > 0
    ensures offset >= 0
    ensures f.page == 1 <==> offset == 0
    ensures f.page > 1 ==> offset >= f.limit
  {
    var before := f.page - 1;
    assert before >= 1 ==> before * f.limit >= f.limit by {
      if before >= 1 { MulMonotone(before, f.limit); }
    }
    before * f.limit
  }

  lemma MulMonotone(a: int, b: int)
    requires a >= 1 && b > 0
    ensures a * b >= b
  {
  }

  /** ceil($totalFiltered / $limit). */
  function TotalPages(totalFiltered: nat, limit: int): (pages: nat)
    requires limit > 0
  {
    (totalFiltered + limit - 1) / limit
  }

  /**
   * The page count is the smallest number of pages of `limit` rows that
   * holds every filtered row: none for no rows, and the last page is never
   * empty.
   */
  lemma TotalPagesIsCeiling(totalFiltered: nat, limit: int)
    requires limit > 0
    ensures var pages := TotalPages(totalFiltered, limit);
            totalFiltered <= pages * limit
            && (pages == 0 <==> totalFiltered == 0)
            && (pages > 0 ==> (pages - 1) * limit < totalFiltered)
  {
    var pages := TotalPages(totalFiltered, limit);
    var n := totalFiltered + limit - 1;
    assert n == pages * limit + n % limit;
  }

  // ---------------------------------------------------------------- the WHERE clause

  /** A condition of the dashboard query and the placeholder it binds. */
  datatype Condition = ProtocolIs(protocol: string) | StatusIs(status: string) | LanguageIs(language: string)
                     | SearchLike(pattern: string)

  /** The condition's SQL text. */
  function Sql(c: Condition): string {
    match c
    case ProtocolIs(_) => "protocol = :protocol"
    case StatusIs(_) => "status = :status"
    case LanguageIs(_) => "language = :language"
    case SearchLike(_) => "(username LIKE :search OR instance LIKE :search OR lastfm_username LIKE :search)"
  }

  function Placeholder(c: Condition): string {
    match c
    case ProtocolIs(_) => ":protocol"
    case StatusIs(_) => ":status"
    case LanguageIs(_) => ":language"
    case SearchLike(_) => ":search"
  }

  /** Whether SQL keeps a row under the condition; a NULL column never matches LIKE. */
  predicate Holds(c: Condition, u: UserRepository.User, like: (string, string) -> bool) {
    match c
    case ProtocolIs(p) => u.protocol == p
    case StatusIs(s) => UserRepository.StatusName(u.status) == s
    case LanguageIs(l) => u.language == l
    case SearchLike(p) => like(u.username, p) || like(u.instance, p) || (u.lastfmUsername.Some? && like(u.lastfmUsername.value, p))
  }

  predicate AllHold(where: seq<Condition>, u: UserRepository.User, like: (string, string) -> bool) {
    forall i :: 0 <= i < |where| ==> Holds(where[i], u, like)
  }

  /** The rows the dashboard filters select: each non-empty filter must match; an empty one matches all. */
  predicate Selected(f: Filters, u: UserRepository.User, like: (string, string) -> bool) {
    (f.protocol == "" || u.protocol == f.protocol)
    && (f.status == "" || UserRepository.StatusName(u.status) == f.status)
    && (f.language == "" || u.language == f.language)
    && (f.search == "" || Holds(SearchLike("%" + f.search + "%"), u, like))
  }

  /**
   * The WHERE conditions and their parameters, built one filter at a time:
   * a row satisfies all conditions exactly when the filters select it, and
   * every placeholder is bound (the search term wrapped in '%').
   */
  method BuildWhere(f: Filters) returns (where: seq<Condition>, params: map<string, string>)
    ensures forall u, like :: AllHold(where, u, like) <==> Selected(f, u, like)
    ensures forall i :: 0 <= i < |where| ==> Placeholder(where[i]) in params
    ensures |where| == |params| <= 4
    ensures (":protocol" in params <==> f.protocol != "") && (":status" in params <==> f.status != "")
    ensures (":language" in params <==> f.language != "") && (":search" in params <==> f.search != "")
    ensures ":search" in params ==> params[":search"] == "%" + f.search + "%"
    ensures ":protocol" in params ==> params[":protocol"] == f.protocol
    ensures ":status" in params ==> params[":status"] == f.status
    ensures ":language" in params ==> params[":language"] == f.language
  {
    where, params := [], map[];
    if f.protocol != "" {
      where := where + [ProtocolIs(f.protocol)];
      params := params[":protocol" := f.protocol];
    }
    if f.status != "" {
      where := where + [StatusIs(f.status)];
      params := params[":status" := f.status];
    }
    if f.language != "" {
      where := where + [LanguageIs(f.language)];
      params := params[":language" := f.language];
    }
    if f.search != "" {
      where := where + [SearchLike("%" + f.search + "%")];
      params := params[":search" := "%" + f.search + "%"];
    }
    assert where == FilterConditions(f) && params == FilterParams(f);
    FilterParamsBound(f);
    forall u, like ensures AllHold(where, u, like) <==> Selected(f, u, like) {
      WhereMeaning(f, where, u, like);
    }
  }

  /** The parameters of the non-empty filters. */
  ghost function FilterParams(f: Filters): map<string, string> {
    var p1 := if f.protocol != "" then map[":protocol" := f.protocol] else map[];
    var p2 := if f.status != "" then p1[":status" := f.status] else p1;
    var p3 := if f.language != "" then p2[":language" := f.language] else p2;
    if f.search != "" then p3[":search" := "%" + f.search + "%"] else p3
  }

  /** Each non-empty filter binds its own placeholder, and only those are bound. */
  lemma FilterParamsBound(f: Filters)
    ensures var where, params := FilterConditions(f), FilterParams(f);
            && (forall i :: 0 <= i < |where| ==> Placeholder(where[i]) in params)
            && |where| == |params| <= 4
            && (":protocol" in params <==> f.protocol != "") && (":status" in params <==> f.status != "")
            && (":language" in params <==> f.language != "") && (":search" in params <==> f.search != "")
            && (":search" in params ==> params[":search"] == "%" + f.search + "%")
            && (":protocol" in params ==> params[":protocol"] == f.protocol)
            && (":status" in params ==> params[":status"] == f.status)
            && (":language" in params ==> params[":language"] == f.language)
  {
    FilterParamsKeys(f);
    FilterParamsCount(f);
    FilterPlaceholdersBound(f);
  }

  lemma FilterParamsKeys(f: Filters)
    ensures var params := FilterParams(f);
            && (":protocol" in params <==> f.protocol != "") && (":status" in params <==> f.status != "")
            && (":language" in params <==> f.language != "") && (":search" in params <==> f.search != "")
            && (":search" in params ==> params[":search"] == "%" + f.search + "%")
            && (":protocol" in params ==> params[":protocol"] == f.protocol)
            && (":status" in params ==> params[":status"] == f.status)
            && (":language" in params ==> params[":language"] == f.language)
  {
  }

  lemma FilterParamsCount(f: Filters)
    ensures |FilterConditions(f)| == |FilterParams(f)| <= 4
  {
    var p1 := if f.protocol != "" then map[":protocol" := f.protocol] else map[];
    var p2 := if f.status != "" then p1[":status" := f.status] else p1;
    var p3 := if f.language != "" then p2[":language" := f.language] else p2;
    assert p1.Keys <= {":protocol"} && p2.Keys <= {":protocol", ":status"};
    assert p3.Keys <= {":protocol", ":status", ":language"};
  }

  lemma FilterPlaceholdersBound(f: Filters)
    ensures forall i :: 0 <= i < |FilterConditions(f)| ==> Placeholder(FilterConditions(f)[i]) in FilterParams(f)
  {
    FilterParamsKeys(f);
  }

  /** The conditions of the non-empty filters, in the order they are added. */
  function FilterConditions(f: Filters): seq<Condition> {
    (if f.protocol != "" then [ProtocolIs(f.protocol)] else [])
    + (if f.status != "" then [StatusIs(f.status)] else [])
    + (if f.language != "" then [LanguageIs(f.language)] else [])
    + (if f.search != "" then [SearchLike("%" + f.search + "%")] else [])
  }

  lemma WhereMeaning(f: Filters, where: seq<Condition>, u: UserRepository.User, like: (string, string) -> bool)
    requires where == FilterConditions(f)
    ensures AllHold(where, u, like) <==> Selected(f, u, like)
  {
    var a := if f.protocol != "" then [ProtocolIs(f.protocol)] else [];
    var b := if f.status != "" then [StatusIs(f.status)] else [];
    var c := if f.language != "" then [LanguageIs(f.language)] else [];
    var d := if f.search != "" then [SearchLike("%" + f.search + "%")] else [];
    AllHoldAppend(a, b, u, like);
    AllHoldAppend(a + b, c, u, like);
    AllHoldAppend(a + b + c, d, u, like);
    assert AllHold(a, u, like) <==> f.protocol == "" || u.protocol == f.protocol by { AllHoldOne(a, u, like); }
    assert AllHold(b, u, like) <==> f.status == "" || UserRepository.StatusName(u.status) == f.status by { AllHoldOne(b, u, like); }
    assert AllHold(c, u, like) <==> f.language == "" || u.language == f.language by { AllHoldOne(c, u, like); }
    assert AllHold(d, u, like) <==> f.search == "" || Holds(SearchLike("%" + f.search + "%"), u, like) by { AllHoldOne(d, u, like); }
  }

  lemma AllHoldOne(xs: seq<Condition>, u: UserRepository.User, like: (string, string) -> bool)
    requires |xs| <= 1
    ensures AllHold(xs, u, like) <==> xs == [] || Holds(xs[0], u, like)
  {
  }

  lemma AllHoldAppend(xs: seq<Condition>, ys: seq<Condition>, u: UserRepository.User, like: (string, string) -> bool)
    ensures AllHold(xs + ys, u, like) <==> AllHold(xs, u, like) && AllHold(ys, u, like)
  {
    if AllHold(xs, u, like) && AllHold(ys, u, like) {
      forall i | 0 <= i < |xs + ys| ensures Holds((xs + ys)[i], u, like) {
        if i >= |xs| { assert (xs + ys)[i] == ys[i - |xs|]; }
      }
    }
    if AllHold(xs + ys, u, like) {
      forall i | 0 <= i < |xs| ensures Holds(xs[i], u, like) {
        assert (xs + ys)[i] == xs[i];
      }
      forall i | 0 <= i < |ys| ensures Holds(ys[i], u, like) {
        assert (xs + ys)[|xs| + i] == ys[i];
      }
    }
  }

  /** The WHERE clause: nothing without conditions, else the conditions joined with AND. */
  function WhereClause(where: seq<Condition>): (clause: string)
    ensures where == [] <==> clause == ""
  {
    if where == [] then ""
    else
      var parts := seq(|where|, i requires 0 <= i < |where| => Sql(where[i]));
      "WHERE " + Text.Join(" AND ", parts)
  }

  // ---------------------------------------------------------------- authentication and endpoints

  /** isAuthenticated: the session flag holds exactly `true`. */
  predicate Authenticated(session: map<string, Helpers.SessionValue>) {
    Helpers.SessionLookup(session, "admin_authenticated", Helpers.SNull) == Helpers.SBool(true)
  }

  /** The columns of a users row, as SELECT * returns them. */
  function Columns(u: UserRepository.User): (cols: map<string, Json.Value>)
    ensures "password" in cols && "token" in cols && "id" in cols
  {
    map["id" := Json.Num(u.id), "protocol" := Json.Str(u.protocol), "instance" := Json.Str(u.instance),
        "username" := Json.Str(u.username), "did" := Nullable(u.did), "password" := Nullable(u.password),
        "token" := Nullable(u.token), "lastfm_username" := Nullable(u.lastfmUsername),
        "day_of_week" := if u.dayOfWeek.Some? then Json.Num(u.dayOfWeek.value) else Json.Null,
        "time" := Nullable(u.time), "timezone" := Nullable(u.timezone), "language" := Json.Str(u.language),
        "status" := Json.Str(UserRepository.StatusName(u.status)), "callback" := Nullable(u.callback),
        "social_message" := Nullable(u.socialMessage), "social_montage" := Nullable(u.socialMontage),
        "error_count" := Json.Num(u.errorCount), "created_at" := Json.Str(u.createdAt),
        "updated_at" := Json.Str(u.updatedAt)]
  }

  function Nullable(s: Option<string>): Json.Value {
    if s.Some? then Json.Str(s.value) else Json.Null
  }

  datatype JsonReply = JsonReply(code: int, body: map<string, Json.Value>)

  /**
   * showUser: 401 without the admin flag, 400 for an id that is not
   * positive, 404 for a missing user, else the row without its secrets.
   */
  function ShowUser(session: map<string, Helpers.SessionValue>, idArg: Option<string>,
                    rows: map<int, UserRepository.User>): (r: JsonReply)
    ensures !Authenticated(session) ==> r == JsonReply(401, map["error" := Json.Str("Unauthorized")])
    ensures var id := Text.IntVal(idArg.GetOr("0"));
            Authenticated(session) && id <= 0 ==> r == JsonReply(400, map["error" := Json.Str("Invalid user ID")])
    ensures var id := Text.IntVal(idArg.GetOr("0"));
            Authenticated(session) && id > 0 && id !in rows ==> r == JsonReply(404, map["error" := Json.Str("User not found")])
    ensures r.code == 200 <==> Authenticated(session) && Text.IntVal(idArg.GetOr("0")) > 0 && Text.IntVal(idArg.GetOr("0")) in rows
    ensures r.code == 200 ==> "password" !in r.body && "token" !in r.body
    ensures r.code == 200 ==> forall k :: k in Columns(rows[Text.IntVal(idArg.GetOr("0"))]) && k != "password" && k != "token"
                                 ==> k in r.body && r.body[k] == Columns(rows[Text.IntVal(idArg.GetOr("0"))])[k]
  {
    var id := Text.IntVal(idArg.GetOr("0"));
    if !Authenticated(session) then JsonReply(401, map["error" := Json.Str("Unauthorized")])
    else if id <= 0 then JsonReply(400, map["error" := Json.Str("Invalid user ID")])
    else if id !in rows then JsonReply(404, map["error" := Json.Str("User not found")])
    else JsonReply(200, Columns(rows[id]) - {"password", "token"})
  }

  datatype Page = Redirect(location: string) | Html(code: int, error: Option<string>)

  /** index and loginForm: the dashboard needs the flag, the login form sends a signed-in admin to the dashboard. */
  function IndexGate(session: map<string, Helpers.SessionValue>): (p: Option<Page>)
    ensures p.Some? <==> !Authenticated(session)
    ensures p.Some? ==> p.value == Redirect("/admin/login")
  {
    if Authenticated(session) then None else Some(Redirect("/admin/login"))
  }

  function LoginForm(session: map<string, Helpers.SessionValue>): (p: Page)
    ensures Authenticated(session) <==> p == Redirect("/admin")
    ensures !Authenticated(session) ==> p == Html(200, None)
  {
    if Authenticated(session) then Redirect("/admin") else Html(200, None)
  }

  /**
   * login's answer: 500 when ADMIN_USER or ADMIN_PASSWORD is unset or
   * empty, the dashboard when the trimmed user name and the password both
   * match exactly, else 401.
   */
  function LoginDecision(body: map<string, string>, env: map<string, string>): (p: Page)
    ensures var adminUser, adminPassword := Param(env, "ADMIN_USER"), Param(env, "ADMIN_PASSWORD");
            (adminUser == "" || adminPassword == "" ==> p == Html(500, Some("Admin credentials not configured in .env")))
            && (adminUser != "" && adminPassword != "" ==>
                  (p == Redirect("/admin") <==> Text.Trim(Param(body, "username")) == adminUser && Param(body, "password") == adminPassword))
            && (p != Redirect("/admin") && adminUser != "" && adminPassword != "" ==> p == Html(401, Some("Invalid username or password")))
  {
    var adminUser, adminPassword := Param(env, "ADMIN_USER"), Param(env, "ADMIN_PASSWORD");
    if adminUser == "" || adminPassword == "" then Html(500, Some("Admin credentials not configured in .env"))
    else if Text.Trim(Param(body, "username")) == adminUser && Param(body, "password") == adminPassword then Redirect("/admin")
    else Html(401, Some("Invalid username or password"))
  }

  /** An empty configured password is refused outright, so no empty password ever signs in. */
  lemma NoSignInWithoutCredentials(body: map<string, string>, env: map<string, string>)
    requires Param(env, "ADMIN_PASSWORD") == ""
    ensures LoginDecision(body, env).Html? && LoginDecision(body, env).code == 500
  {
  }

  /** login: the session flag is set only on the dashboard answer. */
  method Login(session: Helpers.Session, body: map<string, string>, env: map<string, string>) returns (p: Page)
    modifies session
    ensures p == LoginDecision(body, env)
    ensures session.active
    ensures p == Redirect("/admin") ==> session.data == old(session.data)["admin_authenticated" := Helpers.SBool(true)]
    ensures p != Redirect("/admin") ==> session.data == old(session.data)
  {
    session.StartSafe();
    p := LoginDecision(body, env);
    if p == Redirect("/admin") {
      session.Set("admin_authenticated", Helpers.SBool(true));
    }
  }

  /** logout: the flag is removed, whatever else the session holds stays. */
  method Logout(session: Helpers.Session) returns (p: Page)
    modifies session
    ensures p == Redirect("/admin/login")
    ensures session.data == old(session.data) - {"admin_authenticated"} && !Authenticated(session.data)
  {
    session.Remove("admin_authenticated");
    p := Redirect("/admin/login");
  }
}
