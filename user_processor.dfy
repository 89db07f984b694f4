/**
 * The schedule sweep (app/src/Processors/UserProcessor.php): for each user
 * due this minute, fetch the weekly chart, find an image per artist, build
 * the montage and queue the user for the send sweep.
 *
 * The services are parameters (`Services`): the Last.fm chart reply, the
 * image lookup of each artist, and the montage builder; an Err is the
 * message of the exception they throw.
 */
module UserProcessor {
  import opened Wrappers
  import Json
  import UserRepository
  import LastFmService

  datatype Services = Services(
    chartData: string -> Result<Json.Value>,                            // the Last.fm weekly chart reply for a user name
    imagePath: (string, Option<string>, Option<string>) -> Result<string>, // getArtistImagePath(name, imageUrl, mbid)
    createMontage: (int, seq<string>) -> Result<string>)                  // createWeeklyMontage(userId, paths)

  const NoUsernameCallback := "No Last.fm username configured"
  const NoChartCallback := "No weekly chart data"
  const QueuedCallback := "Queued successfully"

  /** How processUser ends. */
  datatype Processed =
    | NoUsername              // empty Last.fm user name: only the callback is written
    | NoChart                 // empty chart: only the callback is written
    | Enqueued(montage: string) // montage built: the user is QUEUED with it
    | Failed(message: string)   // an exception: counted as a temporary error

  /** The image paths for the chart, one per artist in chart order, or the first exception. */
  function ImagePaths(chart: seq<LastFmService.Artist>, services: Services): (r: Result<seq<string>>)
    decreases |chart|
  {
    if chart == [] then Ok([])
    else
      var init := ImagePaths(chart[..|chart| - 1], services);
      var last := chart[|chart| - 1];
      if init.Err? then init
      else
        var p := services.imagePath(last.name, last.imageUrl, last.mbid);
        if p.Err? then Err(p.error) else Ok(init.value + [p.value])
  }

  /** When every lookup succeeds there is exactly one path per artist, and it is that artist's. */
  lemma {:induction false} ImagePathsOnePerArtist(chart: seq<LastFmService.Artist>, services: Services)
    ensures var r := ImagePaths(chart, services);
            r.Ok? <==> forall i :: 0 <= i < |chart| ==> services.imagePath(chart[i].name, chart[i].imageUrl, chart[i].mbid).Ok?
    ensures var r := ImagePaths(chart, services);
            r.Ok? ==> |r.value| == |chart|
                      && forall i :: 0 <= i < |chart| ==>
                           r.value[i] == services.imagePath(chart[i].name, chart[i].imageUrl, chart[i].mbid).value
    decreases |chart|
  {
    if chart != [] {
      ImagePathsOnePerArtist(chart[..|chart| - 1], services);
    }
  }

  /** What processUser does for a user, as a function of the services. */
  function Process(user: UserRepository.User, services: Services): Processed {
    var name := user.lastfmUsername.GetOr("");
    if name == "" then NoUsername
    else
      var data := services.chartData(name);
      if data.Err? then Failed(data.error)
      else
        var chart := LastFmService.Chart(data.value, 5);
        if chart == [] then NoChart
        else
          var paths := ImagePaths(chart, services);
          if paths.Err? then Failed(paths.error)
          else
            var montage := services.createMontage(user.id, paths.value);
            if montage.Err? then Failed(montage.error) else Enqueued(montage.value)
  }

  /** The row processUser leaves behind. */
  function AfterProcess(row: UserRepository.User, p: Processed, now: string): UserRepository.User {
    match p
    case NoUsername => row.(callback := Some(NoUsernameCallback), updatedAt := now)
    case NoChart => row.(callback := Some(NoChartCallback), updatedAt := now)
    case Enqueued(montage) =>
      row.(status := UserRepository.Queued, socialMontage := Some(montage), callback := Some(QueuedCallback), updatedAt := now)
    case Failed(message) =>
      row.(errorCount := row.errorCount + 1, status := UserRepository.Queued, callback := Some(message), updatedAt := now)
  }

  /**
   * What processUser changes: the two early exits only write a callback and
   * keep the status; a built montage queues the user; a failure counts one
   * more error and also leaves the user QUEUED (a temporary error), with the
   * message as callback. The account and the schedule never change.
   */
  lemma AfterProcessEffects(row: UserRepository.User, p: Processed, now: string)
    ensures var r := AfterProcess(row, p, now);
            && UserRepository.AccountKey(r) == UserRepository.AccountKey(row) && r.id == row.id
            && r.lastfmUsername == row.lastfmUsername && r.dayOfWeek == row.dayOfWeek
            && r.time == row.time && r.timezone == row.timezone
            && r.socialMessage == row.socialMessage && r.updatedAt == now
    ensures var r := AfterProcess(row, p, now);
            (p.NoUsername? || p.NoChart?) ==>
              r.status == row.status && r.errorCount == row.errorCount && r.socialMontage == row.socialMontage
              && r.callback == Some(if p.NoUsername? then NoUsernameCallback else NoChartCallback)
    ensures var r := AfterProcess(row, p, now);
            p.Enqueued? ==> r.status == UserRepository.Queued && r.errorCount == row.errorCount
                            && r.socialMontage == Some(p.montage) && r.callback == Some(QueuedCallback)
    ensures var r := AfterProcess(row, p, now);
            p.Failed? ==> r.status == UserRepository.Queued && r.errorCount == row.errorCount + 1
                          && r.socialMontage == row.socialMontage && r.callback == Some(p.message)
  {
  }

  /** A user whose Last.fm name is missing or empty never reaches the chart service. */
  lemma NoUsernameAsksNothing(user: UserRepository.User, s1: Services, s2: Services)
    requires user.lastfmUsername.GetOr("") == ""
    ensures Process(user, s1) == Process(user, s2) == NoUsername
  {
  }

  /** The loop of processUser that looks up one image per artist, stopping at the first exception. */
  method CollectImagePaths(chart: seq<LastFmService.Artist>, services: Services) returns (paths: Result<seq<string>>)
    ensures paths == ImagePaths(chart, services)
  {
    var acc: seq<string> := [];
    for i := 0 to |chart|
      invariant ImagePaths(chart[..i], services) == Ok(acc)
    {
      assert chart[..i + 1][..i] == chart[..i];
      var artist := chart[i];
      var p := services.imagePath(artist.name, artist.imageUrl, artist.mbid);
      if p.Err? {
        ImagePathsErrSticks(chart, i + 1, services);
        return Err(p.error);
      }
      acc := acc + [p.value];
    }
    assert chart[..|chart|] == chart;
    paths := Ok(acc);
  }

  /** Once a prefix of the chart fails, the whole chart fails with the same message. */
  lemma {:induction false} ImagePathsErrSticks(chart: seq<LastFmService.Artist>, n: nat, services: Services)
    requires n <= |chart| && ImagePaths(chart[..n], services).Err?
    ensures ImagePaths(chart, services) == ImagePaths(chart[..n], services)
    decreases |chart| - n
  {
    if n < |chart| {
      assert chart[..n + 1][..n] == chart[..n];
      ImagePathsErrSticks(chart, n + 1, services);
    } else {
      assert chart[..n] == chart;
    }
  }

  /**
   * The try block of processUser, without the writes: the outcome, and the
   * paths handed to the montage builder when it is reached.
   */
  method Evaluate(user: UserRepository.User, services: Services) returns (p: Processed, paths: seq<string>)
    ensures p == Process(user, services)
    ensures p.Enqueued? ==>
              var data := services.chartData(user.lastfmUsername.GetOr(""));
              && data.Ok? && ImagePaths(LastFmService.Chart(data.value, 5), services) == Ok(paths)
              && services.createMontage(user.id, paths) == Ok(p.montage)
  {
    paths := [];
    var lastfmUsername := user.lastfmUsername.GetOr("");
    if lastfmUsername == "" {
      return NoUsername, paths;
    }
    var chart := LastFmService.GetWeeklyArtistChart(services.chartData(lastfmUsername), 5);
    if chart.Err? {
      return Failed(chart.error), paths;
    }
    if chart.value == [] {
      return NoChart, paths;
    }
    var collected := CollectImagePaths(chart.value, services);
    if collected.Err? {
      return Failed(collected.error), paths;
    }
    paths := collected.value;
    var montage := services.createMontage(user.id, paths);
    if montage.Err? {
      return Failed(montage.error), paths;
    }
    p := Enqueued(montage.value);
  }

  /**
   * processUser: the outcome is recorded in the user's own row as
   * AfterProcess says; true exactly when the user was queued.
   */
  method ProcessUser(users: UserRepository.UserStore, user: UserRepository.User, services: Services, now: string)
    returns (queued: bool, p: Processed)
    requires users.Valid()
    modifies users
    ensures users.Valid() && users.nextId == old(users.nextId)
    ensures p == Process(user, services) && (queued <==> p.Enqueued?)
    ensures user.id in old(users.rows) ==> users.rows == old(users.rows)[user.id := AfterProcess(old(users.rows)[user.id], p, now)]
    ensures user.id !in old(users.rows) ==> users.rows == old(users.rows)
  {
    var userId := user.id;
    var paths;
    p, paths := Evaluate(user, services);
    match p {
      case NoUsername =>
        users.SetCallback(userId, NoUsernameCallback, now);
      case NoChart =>
        users.SetCallback(userId, NoChartCallback, now);
      case Enqueued(montage) =>
        users.MarkQueued(userId, montage, now);
        users.SetCallback(userId, QueuedCallback, now);
      case Failed(message) =>
        var count := users.IncrementError(userId, message, true, now);
    }
    queued := p.Enqueued?;
  }

  /** processUserById (force mode): a missing user gives false with no write; any other user is processed whatever its status. */
  method ProcessUserById(users: UserRepository.UserStore, userId: int, services: Services, now: string)
    returns (queued: bool, p: Option<Processed>)
    requires users.Valid()
    modifies users
    ensures users.Valid() && users.nextId == old(users.nextId)
    ensures p.None? <==> userId !in old(users.rows)
    ensures p.None? ==> !queued && users.rows == old(users.rows)
    ensures p.Some? ==>
              p.value == Process(old(users.rows)[userId], services) && (queued <==> p.value.Enqueued?)
              && users.rows == old(users.rows)[userId := AfterProcess(old(users.rows)[userId], p.value, now)]
  {
    var user := users.FindById(userId);
    if user.None? {
      return false, None;
    }
    var processed;
    queued, processed := ProcessUser(users, user.value, services, now);
    p := Some(processed);
  }

  /**
   * The table after the first |outcomes| due users were processed: same
   * ids, each processed row as AfterProcess says, the rest of the due users
   * and every row that was not due as they were.
   */
  ghost predicate Swept(start: map<int, UserRepository.User>, rows: map<int, UserRepository.User>,
                        due: seq<UserRepository.User>, outcomes: seq<Processed>, now: string)
  {
    && |outcomes| <= |due|
    && rows.Keys == start.Keys
    && (forall j :: 0 <= j < |due| ==> due[j].id in start && start[due[j].id] == due[j])
    && (forall j :: 0 <= j < |outcomes| ==> rows[due[j].id] == AfterProcess(due[j], outcomes[j], now))
    && (forall j :: |outcomes| <= j < |due| ==> rows[due[j].id] == due[j])
    && (forall id :: id in start && start[id] !in due ==> rows[id] == start[id])
  }

  /** Processing the next due user extends Swept by one outcome. */
  lemma SweepStep(start: map<int, UserRepository.User>, before: map<int, UserRepository.User>,
                  after: map<int, UserRepository.User>, due: seq<UserRepository.User>,
                  outcomes: seq<Processed>, p: Processed, now: string)
    requires Swept(start, before, due, outcomes, now) && |outcomes| < |due|
    requires UserRepository.Ascending(due)
    requires var u := due[|outcomes|];
             u.id in before ==> after == before[u.id := AfterProcess(before[u.id], p, now)]
    ensures Swept(start, after, due, outcomes + [p], now)
  {
    var i := |outcomes|;
    var u := due[i];
    assert before[u.id] == u;
    forall j | 0 <= j < |due| && j != i
      ensures due[j].id != u.id
    {
    }
    forall id | id in start && start[id] !in due
      ensures id != u.id
    {
      assert u in due;
    }
  }

  /**
   * runSchedule: every due user, in id order, is processed once; one user's
   * failure does not stop the others. Each due row ends as AfterProcess
   * says and every other row is left as it was.
   */
  method RunSchedule(users: UserRepository.UserStore, services: Services,
                     clock: UserRepository.Clock, zones: UserRepository.ZoneTable, now: string)
    returns (due: seq<UserRepository.User>, outcomes: seq<Processed>)
    requires users.Valid() && clock.Valid()
    modifies users
    ensures users.Valid() && users.nextId == old(users.nextId)
    ensures forall u :: u in due <==> u in old(users.rows).Values && UserRepository.IsDue(u, clock, zones)
    ensures UserRepository.Ascending(due) && |outcomes| == |due|
    ensures users.rows.Keys == old(users.rows).Keys
    ensures forall i :: 0 <= i < |due| ==>
              due[i].id in old(users.rows) && old(users.rows)[due[i].id] == due[i] && outcomes[i] == Process(due[i], services)
              && users.rows[due[i].id] == AfterProcess(due[i], outcomes[i], now)
    ensures forall id :: id in old(users.rows) && !UserRepository.IsDue(old(users.rows)[id], clock, zones) ==>
              users.rows[id] == old(users.rows)[id]
  {
    due := users.FindUsersDueForSchedule(clock, zones);
    UserRepository.FoundRowsStored(users.rows, due);
    outcomes := ProcessInTurn(users, due, services, now);
    NotDueUntouched(old(users.rows), users.rows, due, outcomes, clock, zones, now);
  }

  /** The loop of runSchedule: each user of `due` processed in turn, in the order given. */
  method ProcessInTurn(users: UserRepository.UserStore, due: seq<UserRepository.User>, services: Services, now: string)
    returns (outcomes: seq<Processed>)
    requires users.Valid() && UserRepository.Ascending(due)
    requires forall j :: 0 <= j < |due| ==> due[j].id in users.rows && users.rows[due[j].id] == due[j]
    modifies users
    ensures users.Valid() && users.nextId == old(users.nextId)
    ensures |outcomes| == |due| && Swept(old(users.rows), users.rows, due, outcomes, now)
    ensures forall j :: 0 <= j < |due| ==> outcomes[j] == Process(due[j], services)
  {
    outcomes := [];
    var i := 0;
    while i < |due|
      invariant 0 <= i <= |due| && |outcomes| == i
      invariant users.Valid() && users.nextId == old(users.nextId)
      invariant Swept(old(users.rows), users.rows, due, outcomes, now)
      invariant forall j :: 0 <= j < i ==> outcomes[j] == Process(due[j], services)
    {
      var p := ProcessNext(users, old(users.rows), due, outcomes, services, now);
      outcomes := outcomes + [p];
      i := i + 1;
    }
  }

  /** One turn of the loop: the next due user is processed and the sweep grows by its outcome. */
  method ProcessNext(users: UserRepository.UserStore, ghost start: map<int, UserRepository.User>,
                     due: seq<UserRepository.User>, outcomes: seq<Processed>, services: Services, now: string)
    returns (p: Processed)
    requires users.Valid() && UserRepository.Ascending(due)
    requires |outcomes| < |due| && Swept(start, users.rows, due, outcomes, now)
    modifies users
    ensures users.Valid() && users.nextId == old(users.nextId)
    ensures p == Process(due[|outcomes|], services)
    ensures Swept(start, users.rows, due, outcomes + [p], now)
  {
    ghost var before := users.rows;
    var queued;
    queued, p := ProcessUser(users, due[|outcomes|], services, now);
    SweepStep(start, before, users.rows, due, outcomes, p, now);
  }

  /** At the end of the sweep, a row that was not due is as it was. */
  lemma NotDueUntouched(start: map<int, UserRepository.User>, rows: map<int, UserRepository.User>,
                        due: seq<UserRepository.User>, outcomes: seq<Processed>,
                        clock: UserRepository.Clock, zones: UserRepository.ZoneTable, now: string)
    requires clock.Valid() && Swept(start, rows, due, outcomes, now)
    requires forall u :: u in due <==> u in start.Values && UserRepository.IsDue(u, clock, zones)
    ensures forall id :: id in start && !UserRepository.IsDue(start[id], clock, zones) ==> rows[id] == start[id]
  {
    forall id | id in start && !UserRepository.IsDue(start[id], clock, zones)
      ensures rows[id] == start[id]
    {
      assert start[id] !in due;
    }
  }
}
