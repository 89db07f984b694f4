/**
 * The import of a version-1 SQL dump (app/src/Database/V1Migration.php).
 *
 * Finding the INSERT statements (a regular expression) and splitting their
 * values (str_getcsv) are not modelled: each statement arrives as its list
 * of fields, after 'NULL' has been unquoted. The users go into the users
 * table inside one transaction; the Mastodon apps are only counted.
 */
module V1Migration {
  import opened Wrappers
  import Text
  import UserRepository

  // ---------------------------------------------------------------- value mapping

  /** The v1 protocol as a v2 protocol: "bluesky" and "at" are AT; everything else, null included, is Mastodon. */
  function MapProtocol(v1Protocol: Option<string>): (p: string)
    ensures p == "mastodon" || p == "at"
    ensures p == "at" <==> v1Protocol == Some("bluesky") || v1Protocol == Some("at")
  {
    if v1Protocol == Some("mastodon") then "mastodon"
    else if v1Protocol == Some("bluesky") || v1Protocol == Some("at") then "at"
    else "mastodon"
  }

  /** The v1 status as a v2 status: only "error" and "paused" survive, everything else is ACTIVE. */
  function MapStatus(v1Status: Option<string>): (s: UserRepository.Status)
    ensures s == UserRepository.Active || s == UserRepository.Error || s == UserRepository.Paused
    ensures s == UserRepository.Error <==> v1Status == Some("error")
    ensures s == UserRepository.Paused <==> v1Status == Some("paused")
  {
    if v1Status == Some("active") || v1Status == Some("schedule") then UserRepository.Active
    else if v1Status == Some("error") then UserRepository.Error
    else if v1Status == Some("paused") then UserRepository.Paused
    else UserRepository.Active
  }

  /** PHP's empty() on a nullable string: null, "" and "0". */
  predicate Empty(s: Option<string>) {
    s.None? || s.value == "" || s.value == "0"
  }

  predicate HasScheme(s: string) {
    Text.StartsWith(s, "http://") || Text.StartsWith(s, "https://")
  }

  /** cleanInstance: the default server for an empty value, else the value with https:// put in front when it has no http(s) scheme. */
  function CleanInstance(instance: Option<string>): (r: string)
    ensures HasScheme(r)
    ensures Empty(instance) ==> r == "https://mastodon.social"
    ensures !Empty(instance) && HasScheme(instance.value) ==> r == instance.value
    ensures !Empty(instance) && !HasScheme(instance.value) ==> r == "https://" + instance.value
  {
    if Empty(instance) then "https://mastodon.social"
    else if HasScheme(instance.value) then instance.value
    else
      assert ("https://" + instance.value)[..8] == "https://";
      "https://" + instance.value
  }

  /** Cleaning a cleaned instance changes nothing. */
  lemma CleanInstanceIdempotent(instance: Option<string>)
    ensures CleanInstance(Some(CleanInstance(instance))) == CleanInstance(instance)
  {
    var r := CleanInstance(instance);
    assert !Empty(Some(r)) by { assert |r| >= 7; }
  }

  // ---------------------------------------------------------------- users

  /** A row of the v1 users table. */
  datatype V1User = V1User(
    id: int, username: string, password: Option<string>, lastfmUsername: Option<string>,
    dayOfWeek: Option<int>, time: Option<string>, timezone: Option<string>,
    timeCron: Option<string>, dayOfWeekCron: Option<int>, status: Option<string>,
    instance: Option<string>, protocol: Option<string>, token: Option<string>,
    socialMessage: Option<string>, socialMontage: Option<string>, callback: Option<string>,
    atDid: Option<string>)

  /** A field, with the literal NULL read as null. */
  function Nullable(field: string): (r: Option<string>)
    ensures r.None? <==> field == "NULL"
    ensures r.Some? ==> r.value == field
  {
    if field == "NULL" then None else Some(field)
  }

  function NullableInt(field: string): (r: Option<int>)
    ensures r.None? <==> field == "NULL"
  {
    if field == "NULL" then None else Some(Text.IntVal(field))
  }

  /** The user of a statement with at least 16 fields; at_did is the optional 17th. */
  function UserOfRow(row: seq<string>): (u: V1User)
    requires |row| >= 16
    ensures u.atDid.Some? <==> |row| > 16 && row[16] != "NULL"
    ensures u.atDid.Some? ==> u.atDid.value == row[16]
    ensures u.username == row[1] && u.id == Text.IntVal(row[0])
  {
    V1User(Text.IntVal(row[0]), row[1], Nullable(row[2]), Nullable(row[3]), NullableInt(row[4]),
           Nullable(row[5]), Nullable(row[6]), Nullable(row[7]), NullableInt(row[8]), Nullable(row[9]),
           Nullable(row[10]), Nullable(row[11]), Nullable(row[12]), Nullable(row[13]), Nullable(row[14]),
           Nullable(row[15]), if |row| > 16 && row[16] != "NULL" then Some(row[16]) else None)
  }

  /** The users of the statements with at least 16 fields, in statement order. */
  function KeptUsers(rows: seq<seq<string>>): seq<V1User>
    decreases |rows|
  {
    if rows == [] then []
    else
      var last := rows[|rows| - 1];
      KeptUsers(rows[..|rows| - 1]) + (if |last| >= 16 then [UserOfRow(last)] else [])
  }

  /** Whether a user is the user of one of the statements with at least 16 fields. */
  ghost predicate FromLongRow(rows: seq<seq<string>>, u: V1User) {
    exists i :: 0 <= i < |rows| && |rows[i]| >= 16 && u == UserOfRow(rows[i])
  }

  /** A kept user comes from a long enough statement, and every such statement gives one. */
  lemma {:induction false} KeptUsersExactly(rows: seq<seq<string>>)
    ensures |KeptUsers(rows)| <= |rows|
    ensures forall u :: u in KeptUsers(rows) <==> FromLongRow(rows, u)
    decreases |rows|
  {
    if rows != [] {
      var init, last := rows[..|rows| - 1], rows[|rows| - 1];
      KeptUsersExactly(init);
      assert rows == init + [last];
      assert KeptUsers(rows) == KeptUsers(init) + (if |last| >= 16 then [UserOfRow(last)] else []);
      forall u | u in KeptUsers(rows) ensures FromLongRow(rows, u) {
        KeptIsFromLong(rows, init, last, u);
      }
      forall u | FromLongRow(rows, u) ensures u in KeptUsers(rows) {
        LongIsKept(rows, init, last, u);
      }
    }
  }

  /** A user kept from the statements before the last, or from the last one, comes from a long statement. */
  lemma KeptIsFromLong(rows: seq<seq<string>>, init: seq<seq<string>>, last: seq<string>, u: V1User)
    requires rows == init + [last]
    requires u in KeptUsers(init) ==> FromLongRow(init, u)
    requires u in KeptUsers(init) + (if |last| >= 16 then [UserOfRow(last)] else [])
    ensures FromLongRow(rows, u)
  {
    if u in KeptUsers(init) {
      var i :| 0 <= i < |init| && |init[i]| >= 16 && u == UserOfRow(init[i]);
      assert rows[i] == init[i];
    } else {
      assert rows[|init|] == last;
    }
  }

  /** A user of a long statement is kept from the statements before the last or from the last one. */
  lemma LongIsKept(rows: seq<seq<string>>, init: seq<seq<string>>, last: seq<string>, u: V1User)
    requires rows == init + [last]
    requires FromLongRow(init, u) ==> u in KeptUsers(init)
    requires FromLongRow(rows, u)
    ensures u in KeptUsers(init) + (if |last| >= 16 then [UserOfRow(last)] else [])
  {
    var i :| 0 <= i < |rows| && |rows[i]| >= 16 && u == UserOfRow(rows[i]);
    if i < |init| {
      assert init[i] == rows[i];
    }
  }

  /** parseUsers: the statements are read in order and the short ones dropped. */
  method ParseUsers(rows: seq<seq<string>>) returns (users: seq<V1User>)
    ensures users == KeptUsers(rows)
  {
    users := [];
    var i := 0;
    while i < |rows|
      invariant 0 <= i <= |rows|
      invariant users == KeptUsers(rows[..i])
    {
      assert rows[..i + 1][..i] == rows[..i];
      if |rows[i]| >= 16 {
        users := users + [UserOfRow(rows[i])];
      }
      i := i + 1;
    }
    assert rows[..i] == rows;
  }

  /**
   * The v2 row a v1 user becomes: protocol, instance and status mapped, the
   * DID kept only for an AT account with a non-empty at_did, language "en",
   * no errors, timezone UTC when none was set.
   */
  function MigratedRow(v: V1User, id: int, now: string): (u: UserRepository.User)
    ensures u.id == id && u.username == v.username
    ensures u.protocol == MapProtocol(v.protocol) && u.instance == CleanInstance(v.instance)
    ensures u.did.Some? <==> u.protocol == "at" && !Empty(v.atDid)
    ensures u.did.Some? ==> u.did == v.atDid
    ensures u.language == "en" && u.errorCount == 0 && u.status == MapStatus(v.status)
    ensures u.timezone == Some(v.timezone.GetOr("UTC"))
    ensures u.lastfmUsername == v.lastfmUsername && u.dayOfWeek == v.dayOfWeek && u.time == v.time
    ensures u.password == v.password && u.token == v.token && u.callback == v.callback
    ensures u.socialMessage == v.socialMessage && u.socialMontage == v.socialMontage
  {
    var protocol := MapProtocol(v.protocol);
    UserRepository.User(id, protocol, CleanInstance(v.instance), v.username,
                        if protocol == "at" && !Empty(v.atDid) then v.atDid else None,
                        v.password, v.token, v.lastfmUsername, v.dayOfWeek, v.time,
                        Some(v.timezone.GetOr("UTC")), "en", MapStatus(v.status), v.callback,
                        v.socialMessage, v.socialMontage, 0, now, now)
  }

  /** Whether an account is already in the table (the unique index would refuse a second one). */
  ghost predicate Taken(rows: map<int, UserRepository.User>, key: (string, string, string)) {
    exists id :: id in rows && UserRepository.AccountKey(rows[id]) == key
  }

  /**
   * The table, counter and count after inserting the users one by one; a
   * user whose account already exists fails alone and is not counted.
   */
  ghost function MigrateAll(rows: map<int, UserRepository.User>, nextId: int, users: seq<V1User>, now: string)
    : (map<int, UserRepository.User>, int, nat)
    decreases |users|
  {
    if users == [] then (rows, nextId, 0)
    else
      var u := MigratedRow(users[0], nextId, now);
      if Taken(rows, UserRepository.AccountKey(u)) then MigrateAll(rows, nextId, users[1..], now)
      else
        var r := MigrateAll(rows[nextId := u], nextId + 1, users[1..], now);
        (r.0, r.1, r.2 + 1)
  }

  /**
   * What a run of inserts from `rows` and `nextId` over `users` must end in:
   * the counter moved by exactly the count, no user counted twice, rows
   * already present kept as they were, and every new row the migrated form
   * of one of the users.
   */
  ghost predicate CountsInserted(rows: map<int, UserRepository.User>, nextId: int, users: seq<V1User>, now: string,
                                 after: (map<int, UserRepository.User>, int, nat)) {
    var (rows', nextId', count) := after;
    nextId' == nextId + count && count <= |users|
    && (forall id :: id in rows ==> id in rows' && rows'[id] == rows[id])
    && (forall id :: id in rows' && id !in rows ==>
          nextId <= id < nextId' && exists i :: 0 <= i < |users| && rows'[id] == MigratedRow(users[i], id, now))
  }

  /** The count is the number of rows inserted, and the rows already present are kept. */
  lemma {:induction false} MigrateAllCounts(rows: map<int, UserRepository.User>, nextId: int, users: seq<V1User>, now: string)
    requires forall id :: id in rows ==> id < nextId
    ensures CountsInserted(rows, nextId, users, now, MigrateAll(rows, nextId, users, now))
    decreases |users|
  {
    if users != [] {
      var u := MigratedRow(users[0], nextId, now);
      if Taken(rows, UserRepository.AccountKey(u)) {
        MigrateAllCounts(rows, nextId, users[1..], now);
        SkippedCounts(rows, nextId, users, now, MigrateAll(rows, nextId, users, now));
      } else {
        MigrateAllCounts(rows[nextId := u], nextId + 1, users[1..], now);
        InsertedCounts(rows, nextId, users, now, MigrateAll(rows[nextId := u], nextId + 1, users[1..], now));
      }
    }
  }

  /** A first user passed over leaves what the rest do. */
  lemma SkippedCounts(rows: map<int, UserRepository.User>, nextId: int, users: seq<V1User>, now: string,
                      after: (map<int, UserRepository.User>, int, nat))
    requires users != [] && CountsInserted(rows, nextId, users[1..], now, after)
    ensures CountsInserted(rows, nextId, users, now, after)
  {
    var (rows', nextId', count) := after;
    forall id | id in rows' && id !in rows
      ensures exists i :: 0 <= i < |users| && rows'[id] == MigratedRow(users[i], id, now)
    {
      var j :| 0 <= j < |users[1..]| && rows'[id] == MigratedRow(users[1..][j], id, now);
      assert users[1..][j] == users[j + 1];
    }
  }

  /** A first user inserted at `nextId` is one more row, then what the rest do from `nextId + 1`. */
  lemma InsertedCounts(rows: map<int, UserRepository.User>, nextId: int, users: seq<V1User>, now: string,
                       after: (map<int, UserRepository.User>, int, nat))
    requires users != [] && forall id :: id in rows ==> id < nextId
    requires CountsInserted(rows[nextId := MigratedRow(users[0], nextId, now)], nextId + 1, users[1..], now, after)
    ensures CountsInserted(rows, nextId, users, now, (after.0, after.1, after.2 + 1))
  {
    var (rows', nextId', count) := after;
    var grown := rows[nextId := MigratedRow(users[0], nextId, now)];
    forall id | id in rows ensures id in rows' && rows'[id] == rows[id] {
      assert id in grown && grown[id] == rows[id];
    }
    forall id | id in rows' && id !in rows
      ensures nextId <= id < nextId' && exists i :: 0 <= i < |users| && rows'[id] == MigratedRow(users[i], id, now)
    {
      if id == nextId {
        assert id in grown && rows'[id] == MigratedRow(users[0], id, now);
      } else {
        var j :| 0 <= j < |users[1..]| && rows'[id] == MigratedRow(users[1..][j], id, now);
        assert users[1..][j] == users[j + 1];
      }
    }
  }

  /** migrateUsers: each user inserted on its own; a failed insert is passed over and not counted. */
  method MigrateUsers(store: UserRepository.UserStore, users: seq<V1User>, now: string) returns (count: nat)
    requires store.Valid()
    modifies store
    ensures store.Valid()
    ensures (store.rows, store.nextId, count) == MigrateAll(old(store.rows), old(store.nextId), users, now)
  {
    count := 0;
    var i := 0;
    ghost var target := MigrateAll(store.rows, store.nextId, users, now);
    while i < |users|
      invariant 0 <= i <= |users| && store.Valid()
      invariant var r := MigrateAll(store.rows, store.nextId, users[i..], now);
                target == (r.0, r.1, r.2 + count)
    {
      var inserted := MigrateOne(store, users, i, now, target, count);
      if inserted {
        count := count + 1;
      }
      i := i + 1;
    }
  }

  /**
   * One user of migrateUsers: its migrated row is inserted unless its
   * account is already there, and the run over the users after it, from the
   * new state, still ends where the whole run does.
   */
  method MigrateOne(store: UserRepository.UserStore, users: seq<V1User>, i: nat, now: string,
                    ghost target: (map<int, UserRepository.User>, int, nat), ghost count: nat)
    returns (inserted: bool)
    requires store.Valid() && i < |users|
    requires var r := MigrateAll(store.rows, store.nextId, users[i..], now); target == (r.0, r.1, r.2 + count)
    modifies store
    ensures store.Valid()
    ensures var u := MigratedRow(users[i], old(store.nextId), now);
            if Taken(old(store.rows), UserRepository.AccountKey(u))
            then !inserted && store.rows == old(store.rows) && store.nextId == old(store.nextId)
            else inserted && store.rows == old(store.rows)[old(store.nextId) := u] && store.nextId == old(store.nextId) + 1
    ensures var r := MigrateAll(store.rows, store.nextId, users[i + 1..], now);
            target == (r.0, r.1, r.2 + count + if inserted then 1 else 0)
  {
    assert users[i..][1..] == users[i + 1..];
    var user := users[i];
    var row := MigratedRow(user, store.nextId, now);
    var r := store.InsertChecked(row);
    inserted := r.Ok?;
  }

  // ---------------------------------------------------------------- Mastodon apps

  /** A row of the v1 mastodon_apps table; updated_at is null when its field is missing. */
  datatype App = App(id: int, instance: string, hostname: string, clientId: string, clientSecret: string,
                     scopes: string, createdAt: string, updatedAt: Option<string>)

  /** parseMastodonApps as written: seven fields suffice, and the eighth is read whether it is there or not. */
  function AppOfRowAsWritten(row: seq<string>): (a: App)
    requires |row| >= 7
    ensures a.updatedAt.None? <==> |row| == 7
  {
    App(Text.IntVal(row[0]), row[1], row[2], row[3], row[4], row[5], row[6], if |row| > 7 then Some(row[7]) else None)
  }

  function KeptAppsAsWritten(rows: seq<seq<string>>): seq<App>
    decreases |rows|
  {
    if rows == [] then []
    else
      var last := rows[|rows| - 1];
      KeptAppsAsWritten(rows[..|rows| - 1]) + (if |last| >= 7 then [AppOfRowAsWritten(last)] else [])
  }

  /**
   * A seven-field statement passes the length check yet has no eighth field:
   * its app is kept with an updated_at that no field supplied.
   */
  lemma SevenFieldsReadPastTheEnd()
    ensures var row := ["1", "https://example.social", "example.social", "id", "secret", "read write", "2020-01-01"];
            |row| == 7 && |KeptAppsAsWritten([row])| == 1 && KeptAppsAsWritten([row])[0].updatedAt.None?
  {
    var row := ["1", "https://example.social", "example.social", "id", "secret", "read write", "2020-01-01"];
    assert [row][..0] == [];
  }

  /** The app of a statement with all eight fields of the table. */
  function AppOfRow(row: seq<string>): (a: App)
    requires |row| >= 8
    ensures a.updatedAt == Some(row[7]) && a.createdAt == row[6] && a.clientId == row[3] && a.clientSecret == row[4]
  {
    App(Text.IntVal(row[0]), row[1], row[2], row[3], row[4], row[5], row[6], Some(row[7]))
  }

  function KeptApps(rows: seq<seq<string>>): seq<App>
    decreases |rows|
  {
    if rows == [] then []
    else
      var last := rows[|rows| - 1];
      KeptApps(rows[..|rows| - 1]) + (if |last| >= 8 then [AppOfRow(last)] else [])
  }

  /** With the corrected length check, every kept app has all its fields, read from one statement. */
  lemma {:induction false} KeptAppsComplete(rows: seq<seq<string>>)
    ensures |KeptApps(rows)| <= |rows|
    ensures forall a :: a in KeptApps(rows) ==>
              a.updatedAt.Some? && exists i :: 0 <= i < |rows| && |rows[i]| >= 8 && a == AppOfRow(rows[i])
    decreases |rows|
  {
    if rows != [] {
      var init := rows[..|rows| - 1];
      KeptAppsComplete(init);
      forall a | a in KeptApps(init)
        ensures exists i :: 0 <= i < |rows| && |rows[i]| >= 8 && a == AppOfRow(rows[i])
      {
        var i :| 0 <= i < |init| && |init[i]| >= 8 && a == AppOfRow(init[i]);
        assert rows[i] == init[i];
      }
    }
  }

  /** parseMastodonApps with the length check the eight columns need. */
  method ParseMastodonApps(rows: seq<seq<string>>) returns (apps: seq<App>)
    ensures apps == KeptApps(rows)
  {
    apps := [];
    var i := 0;
    while i < |rows|
      invariant 0 <= i <= |rows|
      invariant apps == KeptApps(rows[..i])
    {
      assert rows[..i + 1][..i] == rows[..i];
      if |rows[i]| >= 8 {
        apps := apps + [AppOfRow(rows[i])];
      }
      i := i + 1;
    }
    assert rows[..i] == rows;
  }

  // ---------------------------------------------------------------- the migration

  /** The dump file: missing, unreadable, or read and split into its statements. */
  datatype SqlFile = Missing | Unreadable | Statements(users: seq<seq<string>>, apps: seq<seq<string>>)

  datatype Stats = Stats(users: nat, mastodonApps: nat, errors: nat)

  /**
   * migrateFromFile: a missing or unreadable file fails before any work;
   * otherwise the users are migrated and the apps counted in one
   * transaction. `commitError` is the database's answer to COMMIT: when it
   * refuses, the transaction is rolled back, leaving the table as it was,
   * and the error is passed on.
   */
  method MigrateFromFile(store: UserRepository.UserStore, path: string, file: SqlFile,
                         commitError: Option<string>, now: string)
    returns (r: Result<Stats>)
    requires store.Valid()
    modifies store
    ensures store.Valid()
    ensures file.Missing? ==> r == Err("SQL file not found: " + path) && unchanged(store)
    ensures file.Unreadable? ==> r == Err("Failed to read SQL file: " + path) && unchanged(store)
    ensures file.Statements? && commitError.Some? ==> r == Err(commitError.value) && store.rows == old(store.rows) && store.nextId == old(store.nextId)
    ensures file.Statements? && commitError.None? ==>
              var after := MigrateAll(old(store.rows), old(store.nextId), KeptUsers(file.users), now);
              r == Ok(Stats(after.2, |KeptApps(file.apps)|, 0))
              && store.rows == after.0 && store.nextId == after.1
  {
    if file.Missing? {
      return Err("SQL file not found: " + path);
    }
    if file.Unreadable? {
      return Err("Failed to read SQL file: " + path);
    }
    var savedRows, savedNextId := store.rows, store.nextId;
    var users := ParseUsers(file.users);
    var count := MigrateUsers(store, users, now);
    var apps := ParseMastodonApps(file.apps);
    if commitError.Some? {
      store.rows, store.nextId := savedRows, savedNextId;
      return Err(commitError.value);
    }
    r := Ok(Stats(count, |apps|, 0));
  }
}
