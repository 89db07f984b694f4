/**
 * The Last.fm API client (app/src/Services/LastFmService.php): chart
 * normalisation, the retrying `call`, the image-source order of
 * getArtistImagePath and the proxy-rotating fetch of an artist page.
 * HTTP replies, regex captures, md5 and the proxy file are parameters.
 */
module LastFmService {
  import opened Wrappers
  import Text
  import Json
  import Http
  import ProxyService

  /** One entry of the weekly artist chart. */
  datatype Artist = Artist(name: string, playcount: int, imageUrl: Option<string>, mbid: Option<string>)

  // ---------------------------------------------------------------------------
  // pickLargestImageUrl

  /** (string)($img['#text'] ?? '') for an array element, '' for anything else. */
  function ImageText(img: Json.Value): string {
    if Json.IsArray(img) then Json.ToStr(Json.At(img, "#text")) else ""
  }

  /** The last non-empty '#text' among `imgs`. */
  function LastImageText(imgs: seq<Json.Value>): Option<string> {
    if imgs == [] then None
    else
      var t := ImageText(imgs[|imgs| - 1]);
      if t != "" then Some(t) else LastImageText(imgs[..|imgs| - 1])
  }

  /**
   * `t` is the last non-empty text among `imgs`: nothing only when no image
   * has one, otherwise a non-empty text of an image with no later image
   * having one.
   */
  ghost predicate LastNonEmpty(imgs: seq<Json.Value>, t: Option<string>) {
    && (t.None? <==> forall i :: 0 <= i < |imgs| ==> ImageText(imgs[i]) == "")
    && (t.Some? ==>
          t.value != ""
          && exists i :: 0 <= i < |imgs| && ImageText(imgs[i]) == t.value
                         && forall j :: i < j < |imgs| ==> ImageText(imgs[j]) == "")
  }

  /** The text picked is non-empty and no later image has one; nothing is picked only when no image has one. */
  lemma {:induction false} LastImageTextIsLast(imgs: seq<Json.Value>)
    ensures LastNonEmpty(imgs, LastImageText(imgs))
  {
    if imgs != [] {
      var n := |imgs| - 1;
      if ImageText(imgs[n]) == "" {
        LastImageTextIsLast(imgs[..n]);
        EmptyImageSkipped(imgs, LastImageText(imgs[..n]));
      } else {
        NonEmptyImagePicked(imgs);
      }
    }
  }

  /** An image without text after the others leaves the pick as it was. */
  lemma EmptyImageSkipped(imgs: seq<Json.Value>, t: Option<string>)
    requires imgs != [] && ImageText(imgs[|imgs| - 1]) == ""
    requires LastNonEmpty(imgs[..|imgs| - 1], t)
    ensures LastNonEmpty(imgs, t)
  {
    var n := |imgs| - 1;
    var init := imgs[..n];
    if t.None? {
      forall i | 0 <= i < |imgs| ensures ImageText(imgs[i]) == "" {
        if i < n {
          assert imgs[i] == init[i];
        }
      }
    } else {
      var i :| 0 <= i < |init| && ImageText(init[i]) == t.value
               && forall j :: i < j < |init| ==> ImageText(init[j]) == "";
      assert imgs[i] == init[i];
      forall j | i < j < |imgs| ensures ImageText(imgs[j]) == "" {
        if j < n {
          assert imgs[j] == init[j];
        }
      }
    }
  }

  /** A last image with text is the pick. */
  lemma NonEmptyImagePicked(imgs: seq<Json.Value>)
    requires imgs != [] && ImageText(imgs[|imgs| - 1]) != ""
    ensures LastNonEmpty(imgs, Some(ImageText(imgs[|imgs| - 1])))
  {
  }

  /** What pickLargestImageUrl returns: null unless `images` is an array. */
  function LargestImageUrl(images: Json.Value): Option<string> {
    if Json.IsArray(images) then LastImageText(Json.Elements(images)) else None
  }

  /** pickLargestImageUrl: the loop that keeps overwriting `best`. */
  method PickLargestImageUrl(images: Json.Value) returns (best: Option<string>)
    ensures best == LargestImageUrl(images)
  {
    if !Json.IsArray(images) {
      return None;
    }
    var imgs := Json.Elements(images);
    best := None;
    for i := 0 to |imgs|
      invariant best == LastImageText(imgs[..i])
    {
      assert imgs[..i + 1][..i] == imgs[..i];
      var img := imgs[i];
      if !Json.IsArray(img) {
        continue;
      }
      var u := Json.ToStr(Json.At(img, "#text"));
      if u != "" {
        best := Some(u);
      }
    }
    assert imgs[..|imgs|] == imgs;
  }

  // ---------------------------------------------------------------------------
  // getWeeklyArtistChart

  /**
   * $data['weeklyartistchart']['artist'] ?? []: what the foreach visits. A
   * non-array gives nothing; an object with a name is one artist, wrapped.
   */
  function ChartEntries(data: Json.Value): (r: seq<Json.Value>)
    ensures var artists := Json.At(Json.At(data, "weeklyartistchart"), "artist");
            (!Json.IsArray(artists) ==> r == [])
            && (Json.IsSet(artists, "name") ==> r == [artists])
            && (Json.IsArray(artists) && !Json.IsSet(artists, "name") ==> r == Json.Elements(artists))
  {
    var artists := Json.At(Json.At(data, "weeklyartistchart"), "artist");
    if !Json.IsArray(artists) then []
    else if Json.IsSet(artists, "name") then [artists]
    else Json.Elements(artists)
  }

  /** The artist an entry becomes, or None when the loop skips it. */
  function ArtistOf(a: Json.Value): (r: Option<Artist>)
    ensures r.Some? <==> Json.IsArray(a) && Json.ToStr(Json.At(a, "name")) != ""
    ensures r.Some? ==> r.value.name != "" && r.value.mbid != Some("") && r.value.imageUrl != Some("")
  {
    if !Json.IsArray(a) then None
    else
      var name := Json.ToStr(Json.At(a, "name"));
      if name == "" then None
      else
        var mbid := Json.ToStr(Json.At(a, "mbid"));
        var image := Json.At(a, "image");
        LastImageTextIsLast(Json.Elements(image));
        var imageUrl := if Json.IsSet(a, "image") && Json.IsArray(image) then LargestImageUrl(image) else None;
        Some(Artist(name, Json.ToInt(Json.At(a, "playcount")), imageUrl, if mbid != "" then Some(mbid) else None))
  }

  /** Every entry that is not skipped, in provider order. */
  function Kept(entries: seq<Json.Value>): (r: seq<Artist>)
    ensures |r| <= |entries|
  {
    if entries == [] then []
    else
      var a := ArtistOf(entries[|entries| - 1]);
      Kept(entries[..|entries| - 1]) + (if a.Some? then [a.value] else [])
  }

  /** Keeping distributes over concatenation: the order of the provider is kept. */
  lemma {:induction false} KeptAppend(xs: seq<Json.Value>, ys: seq<Json.Value>)
    ensures Kept(xs + ys) == Kept(xs) + Kept(ys)
    decreases |ys|
  {
    if ys == [] {
      assert xs + ys == xs;
    } else {
      var init := ys[..|ys| - 1];
      assert (xs + ys)[..|xs + ys| - 1] == xs + init;
      KeptAppend(xs, init);
    }
  }

  /** The break after the append: a limit below 1 still lets one artist through. */
  function Cap(limit: int): (n: nat)
    ensures n >= 1 && (limit >= 1 ==> n == limit)
  {
    if limit < 1 then 1 else limit
  }

  /** The chart getWeeklyArtistChart returns for a decoded body. */
  function Chart(data: Json.Value, limit: int): (r: seq<Artist>)
    ensures |r| <= Cap(limit)
    ensures |r| <= |Kept(ChartEntries(data))| && r == Kept(ChartEntries(data))[..|r|]
    ensures |r| < Cap(limit) ==> r == Kept(ChartEntries(data))
    ensures forall i :: 0 <= i < |r| ==> r[i].name != "" && r[i].mbid != Some("") && r[i].imageUrl != Some("")
  {
    var all := Kept(ChartEntries(data));
    ArtistsValid(ChartEntries(data));
    if |all| <= Cap(limit) then all else all[..Cap(limit)]
  }

  /** Every kept artist has a name, and no empty mbid or image URL. */
  lemma {:induction false} ArtistsValid(entries: seq<Json.Value>)
    ensures forall i :: 0 <= i < |Kept(entries)| ==>
              Kept(entries)[i].name != "" && Kept(entries)[i].mbid != Some("") && Kept(entries)[i].imageUrl != Some("")
  {
    if entries != [] {
      ArtistsValid(entries[..|entries| - 1]);
    }
  }

  /**
   * getWeeklyArtistChart over the outcome of `call`: its exception passes
   * through, otherwise the loop skips, appends and breaks at the limit.
   */
  method GetWeeklyArtistChart(data: Result<Json.Value>, limit: int) returns (r: Result<seq<Artist>>)
    ensures data.Err? ==> r == Err(data.error)
    ensures data.Ok? ==> r == Ok(Chart(data.value, limit))
  {
    if data.Err? {
      return Err(data.error);
    }
    var artists := Json.At(Json.At(data.value, "weeklyartistchart"), "artist");
    if !Json.IsArray(artists) {
      return Ok([]);
    }
    var entries := if Json.IsSet(artists, "name") then [artists] else Json.Elements(artists);
    assert entries == ChartEntries(data.value);
    var out: seq<Artist> := [];
    var i := 0;
    while i < |entries|
      invariant 0 <= i <= |entries|
      invariant out == Kept(entries[..i])
      invariant |out| < Cap(limit)
    {
      assert entries[..i + 1][..i] == entries[..i];
      var artist := ReadArtist(entries[i]);
      if artist.Some? {
        out := out + [artist.value];
        if |out| >= limit {
          ChartStopsAtCap(data.value, limit, i + 1);
          return Ok(out);
        }
      }
      i := i + 1;
    }
    assert entries[..i] == entries;
    return Ok(out);
  }

  /** Once the first k entries have given Cap(limit) artists, the chart is those artists. */
  lemma ChartStopsAtCap(data: Json.Value, limit: int, k: nat)
    requires k <= |ChartEntries(data)| && |Kept(ChartEntries(data)[..k])| == Cap(limit)
    ensures Chart(data, limit) == Kept(ChartEntries(data)[..k])
  {
    var entries := ChartEntries(data);
    KeptAppend(entries[..k], entries[k..]);
    assert entries[..k] + entries[k..] == entries;
  }

  /** One turn of the loop: an entry that is not an array or has an empty name is skipped (None). */
  method ReadArtist(a: Json.Value) returns (artist: Option<Artist>)
    ensures artist == ArtistOf(a)
  {
    if !Json.IsArray(a) {
      return None;
    }
    var name := Json.ToStr(Json.At(a, "name"));
    if name == "" {
      return None;
    }
    var playcount := Json.ToInt(Json.At(a, "playcount"));
    var mbid := Json.ToStr(Json.At(a, "mbid"));
    var imageUrl: Option<string> := None;
    if Json.IsSet(a, "image") && Json.IsArray(Json.At(a, "image")) {
      imageUrl := PickLargestImageUrl(Json.At(a, "image"));
    }
    artist := Some(Artist(name, playcount, imageUrl, if mbid != "" then Some(mbid) else None));
  }

  /** A lone artist object yields that one artist, whatever the limit. */
  lemma SingleArtistWrapped(data: Json.Value, limit: int)
    requires Json.IsSet(Json.At(Json.At(data, "weeklyartistchart"), "artist"), "name")
    requires Json.IsArray(Json.At(Json.At(data, "weeklyartistchart"), "artist"))
    ensures |Chart(data, limit)| <= 1
    ensures Json.ToStr(Json.At(Json.At(Json.At(data, "weeklyartistchart"), "artist"), "name")) != ""
            ==> Chart(data, limit) == [ArtistOf(Json.At(Json.At(data, "weeklyartistchart"), "artist")).value]
  {
    var artists := Json.At(Json.At(data, "weeklyartistchart"), "artist");
    assert ChartEntries(data) == [artists];
    assert [artists][..0] == [];
  }

  // ---------------------------------------------------------------------------
  // call

  /** $form[$k] = $v on a PHP array with string keys: replace in place, else append. */
  function Put(form: Http.Form, k: string, v: string): (r: Http.Form)
    ensures Http.FormValue(r, k) == Some(v)
    ensures forall key :: key != k ==> Http.FormValue(r, key) == Http.FormValue(form, key)
  {
    if form == [] then [(k, v)]
    else if form[0].0 == k then [(k, v)] + form[1..]
    else [form[0]] + Put(form[1..], k, v)
  }

  /** array_merge($params, [method, api_key, format]): the query of every attempt. */
  function CallQuery(params: Http.Form, apiMethod: string, apiKey: string): (q: Http.Form)
    ensures Http.FormValue(q, "method") == Some(apiMethod)
    ensures Http.FormValue(q, "api_key") == Some(apiKey)
    ensures Http.FormValue(q, "format") == Some("json")
    ensures forall key :: key != "method" && key != "api_key" && key != "format"
                          ==> Http.FormValue(q, key) == Http.FormValue(params, key)
  {
    Put(Put(Put(params, "method", apiMethod), "api_key", apiKey), "format", "json")
  }

  const ApiRoot := "https://ws.audioscrobbler.com/2.0/"

  function CallRequest(params: Http.Form, apiMethod: string, apiKey: string): Http.Request {
    Http.Request(Http.GET, ApiRoot, [], CallQuery(params, apiMethod, apiKey), Http.NoBody)
  }

  /** What one GET gives: the message of a thrown exception, or the status code and the decoded body. */
  datatype Reply = Thrown(message: string) | Replied(code: int, body: Json.Value)

  /** The body of one attempt: the decoded array, or the exception the attempt ends in. */
  function AttemptOutcome(reply: Reply): (r: Result<Json.Value>)
    ensures r.Ok? <==> reply.Replied? && Json.IsArray(reply.body) && reply.code < 400 && !Json.IsSet(reply.body, "error")
    ensures r.Ok? ==> r.value == reply.body
    ensures reply.Thrown? ==> r == Err(reply.message)
    ensures reply.Replied? && !Json.IsArray(reply.body) ==> r == Err("Last.fm returned invalid JSON")
    ensures reply.Replied? && Json.IsArray(reply.body) && r.Err? ==> Text.StartsWith(r.error, "Last.fm error: ")
  {
    match reply
    case Thrown(m) => Err(m)
    case Replied(code, body) =>
      if !Json.IsArray(body) then Err("Last.fm returned invalid JSON")
      else if code >= 400 || Json.IsSet(body, "error") then
        var msg := if Json.IsSet(body, "message") then Json.ToStr(Json.At(body, "message")) else "HTTP " + Text.IntToString(code);
        assert ("Last.fm error: " + msg)[..15] == "Last.fm error: ";
        Err("Last.fm error: " + msg)
      else Ok(body)
  }

  function Pow2(n: nat): (p: nat)
    ensures p >= 1
  {
    if n == 0 then 1 else 2 * Pow2(n - 1)
  }

  /** The pause after failed attempt k (1-based), in microseconds: 2^(k-1) seconds. */
  function Delay(k: nat): nat
    requires k >= 1
  {
    Pow2(k - 1) * 1000000
  }

  /** The pauses grow: each is twice the one before. */
  lemma DelayDoubles(k: nat)
    requires k >= 1
    ensures Delay(k + 1) == 2 * Delay(k) && Delay(1) == 1000000
  {
  }

  /** The message call throws once every attempt has failed, with the last failure's message. */
  function FailedAfter(maxRetries: int, lastException: Option<string>): string {
    "Last.fm request failed after " + Text.IntToString(maxRetries) + " attempts: " + lastException.GetOr("Unknown error")
  }

  /**
   * call: without an API key it throws before any request; otherwise it
   * makes up to `maxRetries` attempts (LASTFM_MAX_RETRIES, default 3),
   * pausing after every failed attempt but the last, and throws after the
   * last failure. `send(request, k)` is the reply to attempt k.
   */
  method Call(params: Http.Form, apiMethod: string, apiKey: string, maxRetries: int, send: (Http.Request, nat) -> Reply)
    returns (r: Result<Json.Value>, attempts: nat, sleeps: seq<nat>)
    ensures apiKey == "" ==> r == Err("LASTFM_API is not configured") && attempts == 0 && sleeps == []
    ensures apiKey != "" ==> 0 <= attempts <= (if maxRetries < 0 then 0 else maxRetries)
    ensures forall k :: 1 <= k < attempts ==> AttemptOutcome(send(CallRequest(params, apiMethod, apiKey), k)).Err?
    ensures r.Ok? ==> attempts >= 1 && r == AttemptOutcome(send(CallRequest(params, apiMethod, apiKey), attempts))
    ensures apiKey != "" && r.Err? ==>
              attempts == (if maxRetries < 0 then 0 else maxRetries)
              && (attempts >= 1 ==> AttemptOutcome(send(CallRequest(params, apiMethod, apiKey), attempts)).Err?)
              && r.error == FailedAfter(maxRetries, if attempts >= 1 then Some(AttemptOutcome(send(CallRequest(params, apiMethod, apiKey), attempts)).error)
                                                    else None)
    ensures |sleeps| == (if attempts == 0 then 0 else attempts - 1)
    ensures forall i :: 0 <= i < |sleeps| ==> sleeps[i] == Delay(i + 1)
  {
    if apiKey == "" {
      return Err("LASTFM_API is not configured"), 0, [];
    }
    r, attempts, sleeps := SendWithRetries(CallRequest(params, apiMethod, apiKey), maxRetries, send);
  }

  /** The retry loop of call, for a request that is ready to send. */
  method SendWithRetries(request: Http.Request, maxRetries: int, send: (Http.Request, nat) -> Reply)
    returns (r: Result<Json.Value>, attempts: nat, sleeps: seq<nat>)
    ensures 0 <= attempts <= (if maxRetries < 0 then 0 else maxRetries)
    ensures forall k :: 1 <= k < attempts ==> AttemptOutcome(send(request, k)).Err?
    ensures r.Ok? ==> attempts >= 1 && r == AttemptOutcome(send(request, attempts))
    ensures r.Err? ==>
              attempts == (if maxRetries < 0 then 0 else maxRetries)
              && (attempts >= 1 ==> AttemptOutcome(send(request, attempts)).Err?)
              && r.error == FailedAfter(maxRetries, if attempts >= 1 then Some(AttemptOutcome(send(request, attempts)).error) else None)
    ensures |sleeps| == (if attempts == 0 then 0 else attempts - 1)
    ensures forall i :: 0 <= i < |sleeps| ==> sleeps[i] == Delay(i + 1)
  {
    var lastException: Option<string> := None;
    sleeps := [];
    attempts := 0;
    var attempt := 1;
    while attempt <= maxRetries
      invariant 1 <= attempt <= (if maxRetries < 1 then 1 else maxRetries + 1)
      invariant attempts == attempt - 1
      invariant forall k :: 1 <= k < attempt ==> AttemptOutcome(send(request, k)).Err?
      invariant lastException == if attempt == 1 then None else Some(AttemptOutcome(send(request, attempt - 1)).error)
      invariant |sleeps| == (if attempt <= maxRetries || attempt == 1 then attempt - 1 else attempt - 2)
      invariant forall i :: 0 <= i < |sleeps| ==> sleeps[i] == Delay(i + 1)
      decreases maxRetries - attempt
    {
      var outcome := AttemptOutcome(send(request, attempt));
      attempts := attempt;
      if outcome.Ok? {
        return outcome, attempts, sleeps;
      }
      lastException := Some(outcome.error);
      if attempt < maxRetries {
        sleeps := sleeps + [Delay(attempt)];
      }
      attempt := attempt + 1;
    }
    r := Err(FailedAfter(maxRetries, lastException));
  }


  /** validateUser: whether user.getinfo names the user; the call's exception passes through. */
  function ValidateUser(info: Result<Json.Value>): (r: Result<bool>)
    ensures info.Err? ==> r == Err(info.error)
    ensures info.Ok? ==> (r == Ok(true) <==> Json.IsSet(Json.At(info.value, "user"), "name"))
  {
    if info.Err? then Err(info.error) else Ok(Json.IsSet(Json.At(info.value, "user"), "name"))
  }

  // ---------------------------------------------------------------------------
  // getArtistImagePath

  /** The artist's cache file: md5 of the trimmed lower-cased name, under the cache directory. */
  function CachePath(cacheDir: string, md5: string -> string, artistName: string): string {
    cacheDir + "/" + md5(Text.ToLower(Text.Trim(artistName))) + ".jpg"
  }

  /** MUSICBRAINZ_DEFAULT (default 'false') trimmed and lower-cased is true, 1 or yes. */
  predicate MusicBrainzFirst(setting: Option<string>) {
    var v := Text.ToLower(Text.Trim(setting.GetOr("false")));
    v == "true" || v == "1" || v == "yes"
  }

  /**
   * fetchAndSaveFromLastFm given the scraped image URL and the outcome of
   * downloading it (status and body): the path once a non-empty 2xx body is
   * saved, '' otherwise.
   */
  function FetchAndSave(imageUrl: Option<string>, download: Result<(int, seq<nat>)>, path: string): (r: string)
    ensures r == path || r == ""
    ensures r != "" ==> imageUrl.Some? && imageUrl.value != "" && download.Ok? && 200 <= download.value.0 < 300 && download.value.1 != []
    ensures path != "" && imageUrl.Some? && imageUrl.value != "" && download.Ok? && 200 <= download.value.0 < 300 && download.value.1 != []
            ==> r == path
  {
    if imageUrl.None? || imageUrl.value == "" then ""
    else if download.Ok? && 200 <= download.value.0 < 300 && download.value.1 != [] then path
    else ""
  }

  datatype ImageSource = LastFmPage | MusicBrainz

  /** The outcome of getArtistImagePath: the path returned and the sources asked, in order. */
  datatype ImageLookup = ImageLookup(path: string, asked: seq<ImageSource>)

  /**
   * getArtistImagePath: a cached file wins without asking anyone; otherwise
   * Last.fm then MusicBrainz (the reverse when `mbFirst`), stopping at the
   * first that yields, and '' when neither does. `lastFm` is what
   * fetchAndSaveFromLastFm returns, `musicBrainz` the fetched image bytes.
   */
  function ArtistImagePath(cached: bool, path: string, mbFirst: bool, lastFm: string, musicBrainz: Option<seq<nat>>)
    : (r: ImageLookup)
    ensures cached ==> r == ImageLookup(path, [])
    ensures !cached ==> 1 <= |r.asked| <= 2 && r.asked[0] == (if mbFirst then MusicBrainz else LastFmPage)
    ensures !cached && |r.asked| == 2 ==> r.asked[1] == (if mbFirst then LastFmPage else MusicBrainz)
    ensures !cached && lastFm == "" && musicBrainz.None? ==> r.path == "" && |r.asked| == 2
    ensures !cached && (lastFm != "" || musicBrainz.Some?) ==> r.path != "" || (musicBrainz.Some? && path == "")
    ensures r.path == path || r.path == lastFm || r.path == ""
  {
    if cached then ImageLookup(path, [])
    else if mbFirst then
      if musicBrainz.Some? then ImageLookup(path, [MusicBrainz])
      else if lastFm != "" then ImageLookup(lastFm, [MusicBrainz, LastFmPage])
      else ImageLookup("", [MusicBrainz, LastFmPage])
    else
      if lastFm != "" then ImageLookup(lastFm, [LastFmPage])
      else if musicBrainz.Some? then ImageLookup(path, [LastFmPage, MusicBrainz])
      else ImageLookup("", [LastFmPage, MusicBrainz])
  }

  // ---------------------------------------------------------------------------
  // fetchArtistImageFromLastFmPage

  /** What one GET of the artist page gives. */
  datatype PageReply =
    | RequestFailed(message: string)  // a Guzzle RequestException, retried with another proxy
    | OtherFailure(message: string)   // any other Throwable, not retried
    | Page(code: int, ogImage: Option<string>, ogImageAlt: Option<string>)  // status and the captures of the two og:image patterns

  /** What a reply that ends the loop makes the method return. */
  function PageResult(reply: PageReply): Option<string> {
    match reply
    case Page(code, og, alt) => if code != 200 then None else if og.Some? then og else alt
    case _ => None
  }

  const MaxPageAttempts := 10

  predicate Distinct(used: seq<string>) {
    forall i, j :: 0 <= i < j < |used| ==> used[i] != used[j]
  }

  /** Every proxy used is listed in the proxy file. */
  predicate Listed(used: seq<string>, proxyFile: Option<string>) {
    forall i :: 0 <= i < |used| ==> proxyFile.Some? && used[i] in ProxyService.ListEntries(proxyFile.value)
  }

  /** A listed proxy not used before keeps the used list distinct and listed. */
  lemma UsedGrows(used: seq<string>, proxy: string, proxyFile: Option<string>)
    requires Distinct(used) && Listed(used, proxyFile)
    requires proxyFile.Some? && proxy in ProxyService.ListEntries(proxyFile.value) && proxy !in used
    ensures Distinct(used + [proxy]) && Listed(used + [proxy], proxyFile)
  {
  }

  /**
   * fetchArtistImageFromLastFmPage: at most ten attempts; every attempt but
   * perhaps the first goes through a listed proxy that no earlier attempt
   * used; only a RequestException leads to another attempt, and the loop
   * stops early once no unused proxy is left. `pages[k - 1]` is the reply
   * attempt k would get; `replies` are the replies in order and `used` the
   * proxies.
   */
  method FetchArtistPage(proxyFile: Option<string>, pages: seq<PageReply>)
    returns (imageUrl: Option<string>, replies: seq<PageReply>, used: seq<string>)
    requires |pages| == MaxPageAttempts
    ensures 1 <= |replies| <= MaxPageAttempts
    ensures replies == pages[..|replies|]
    ensures forall i :: 0 <= i < |replies| - 1 ==> replies[i].RequestFailed?
    ensures |replies| - 1 <= |used| <= |replies|
    ensures Distinct(used) && Listed(used, proxyFile)
    ensures imageUrl == PageResult(replies[|replies| - 1])
    ensures |replies| < MaxPageAttempts && replies[|replies| - 1].RequestFailed? ==> ProxyService.NoneLeft(proxyFile, used)
  {
    replies := [];
    used := [];
    var attempt := 1;
    while attempt <= MaxPageAttempts
      invariant 1 <= attempt <= MaxPageAttempts + 1
      invariant |replies| == attempt - 1
      invariant replies == pages[..|replies|]
      invariant forall i :: 0 <= i < |replies| ==> replies[i].RequestFailed?
      invariant |replies| - 1 <= |used| <= |replies|
      invariant Distinct(used) && Listed(used, proxyFile)
    {
      var reply;
      reply, used := FetchThroughProxy(proxyFile, pages, attempt, used);
      if reply.None? {
        break;  // no unused proxy is left
      }
      PrefixGrows(pages, replies);
      replies := replies + [reply.value];
      if !reply.value.RequestFailed? {
        break;
      }
      attempt := attempt + 1;
    }
    imageUrl := PageResult(replies[|replies| - 1]);
  }

  /** One more reply read in order extends the prefix of the pages by one. */
  lemma PrefixGrows(pages: seq<PageReply>, replies: seq<PageReply>)
    requires |replies| < |pages| && replies == pages[..|replies|]
    ensures replies + [pages[|replies|]] == pages[..|replies| + 1]
  {
  }

  /**
   * One attempt: pick an unused proxy; with none left, give up (None) unless
   * this is the first attempt, which then goes direct.
   */
  method FetchThroughProxy(proxyFile: Option<string>, pages: seq<PageReply>, attempt: nat, used: seq<string>)
    returns (reply: Option<PageReply>, usedAfter: seq<string>)
    requires 1 <= attempt <= |pages| && Distinct(used) && Listed(used, proxyFile)
    ensures reply.None? <==> attempt > 1 && ProxyService.NoneLeft(proxyFile, used)
    ensures reply.Some? ==> reply.value == pages[attempt - 1]
    ensures Distinct(usedAfter) && Listed(usedAfter, proxyFile)
    ensures |used| <= |usedAfter| <= |used| + 1
    ensures (reply.None? ==> usedAfter == used) && (reply.Some? && attempt > 1 ==> |usedAfter| == |used| + 1)
  {
    var proxy := ProxyService.GetRandomProxy(proxyFile, used);
    if proxy.None? && attempt > 1 {
      return None, used;
    }
    usedAfter := used;
    if proxy.Some? {
      UsedGrows(used, proxy.value, proxyFile);
      usedAfter := used + [proxy.value];
    }
    reply := Some(pages[attempt - 1]);
  }
}
