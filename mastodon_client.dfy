/**
 * The Mastodon client: base-URL normalisation, app registration, the OAuth
 * 2.0 authorization-code flow (sections 4.1.1 and 4.1.3 of RFC 6749), media
 * upload and status posting. The HTTP client is a Transport.
 */
module MastodonClient {
  import opened Wrappers
  import Text
  import Json
  import Http

  const DefaultInstance := "https://mastodon.social"

  /** normalizeInstance: the Bluesky rule with the Mastodon default. */
  function NormalizeInstance(instance: string): (r: string)
    ensures Text.IsBlank(instance) ==> r == DefaultInstance
    ensures !Text.IsBlank(instance) ==> Text.StartsWith(r, "http") && r[|r| - 1] != '/'
    ensures !Text.IsBlank(instance) && Text.StartsWith(Text.Trim(instance), "http")
            ==> r == Text.RTrimChar(Text.Trim(instance), '/')
    ensures !Text.IsBlank(instance) && !Text.StartsWith(Text.Trim(instance), "http")
            ==> r == Text.RTrimChar("https://" + Text.Trim(instance), '/')
  {
    Http.NormalizeBaseUrl(instance, DefaultInstance)
  }

  function Bearer(token: string): Http.Form {
    [("Authorization", "Bearer " + token)]
  }

  // ---------------------------------------------------------------- apps

  datatype App = App(clientId: string, clientSecret: string)

  /** The registration form; `appUrl` is the APP_URL setting, empty when unset. */
  function RegisterForm(appName: string, redirectUri: string, appUrl: Option<string>): (form: Http.Form)
    ensures Http.FormValue(form, "client_name") == Some(appName)
    ensures Http.FormValue(form, "redirect_uris") == Some(redirectUri)
    ensures Http.FormValue(form, "scopes") == Some("read write")
    ensures Http.FormValue(form, "website") == Some(appUrl.GetOr(""))
  {
    var form := [("client_name", appName), ("redirect_uris", redirectUri), ("scopes", "read write"), ("website", appUrl.GetOr(""))];
    Http.FormValueAt(form, 2, "scopes");
    Http.FormValueAt(form, 3, "website");
    form
  }

  function RegisterRequest(instance: string, appName: string, redirectUri: string, appUrl: Option<string>): Http.Request {
    Http.Request(Http.POST, NormalizeInstance(instance) + "/api/v1/apps", [], [],
      Http.FormBody(RegisterForm(appName, redirectUri, appUrl)))
  }

  /** registerApp: the client credentials, or "Invalid /api/v1/apps response" unless both are set. */
  function RegisterApp(instance: string, appName: string, redirectUri: string, appUrl: Option<string>,
                       send: Http.Transport): (r: Result<App>)
    ensures var resp := send(RegisterRequest(instance, appName, redirectUri, appUrl));
            && (r.Ok? <==> resp.Ok? && Http.HasKeys(resp.value, ["client_id", "client_secret"]))
            && (r.Ok? ==> r.value == App(Json.ToStr(Json.At(resp.value, "client_id")), Json.ToStr(Json.At(resp.value, "client_secret"))))
            && (resp.Ok? && r.Err? ==> r.error == "Invalid /api/v1/apps response")
  {
    var checked := Http.RequireKeys(send(RegisterRequest(instance, appName, redirectUri, appUrl)),
                                    ["client_id", "client_secret"], "Invalid /api/v1/apps response");
    if checked.Err? then Err(checked.error)
    else Ok(App(Json.ToStr(Json.At(checked.value, "client_id")), Json.ToStr(Json.At(checked.value, "client_secret"))))
  }

  // ---------------------------------------------------------------- OAuth

  /** The authorization request parameters, in the order http_build_query writes them. */
  function AuthorizeParams(clientId: string, redirectUri: string, scope: string, state: string): Http.Form {
    [("client_id", clientId), ("redirect_uri", redirectUri), ("response_type", "code"), ("scope", scope), ("state", state)]
  }

  function AuthorizePrefix(instance: string): string {
    NormalizeInstance(instance) + "/oauth/authorize?"
  }

  /** getAuthorizeUrl: the authorization endpoint with its query string. */
  function GetAuthorizeUrl(instance: string, clientId: string, redirectUri: string, scope: string, state: string): (r: string)
    ensures Text.StartsWith(r, AuthorizePrefix(instance))
    ensures r[|AuthorizePrefix(instance)|..] == Http.BuildQuery(AuthorizeParams(clientId, redirectUri, scope, state))
  {
    var prefix := AuthorizePrefix(instance);
    var r := prefix + Http.BuildQuery(AuthorizeParams(clientId, redirectUri, scope, state));
    assert r[..|prefix|] == prefix;
    r
  }

  /**
   * A built query reads back as its pairs, in order: each piece between '&'
   * splits at '=' into an encoded name and value, and each value decodes to
   * the UTF-8 bytes of what was passed.
   */
  ghost predicate ReadsBack(params: Http.Form, pieces: seq<string>) {
    && |pieces| == |params|
    && (forall i :: 0 <= i < |params| ==> Text.Split(pieces[i], '=') == [Http.UrlEncode(params[i].0), Http.UrlEncode(params[i].1)])
    && (forall i :: 0 <= i < |params| ==> Http.UrlDecode(Http.UrlEncode(params[i].1)) == Text.Utf8(params[i].1))
  }

  /**
   * The query of the authorization URL reads back as the five parameters of
   * section 4.1.1 of RFC 6749, in order, with response_type "code".
   */
  lemma AuthorizeQueryCarriesParams(clientId: string, redirectUri: string, scope: string, state: string)
    ensures var params := AuthorizeParams(clientId, redirectUri, scope, state);
            var pieces := Text.Split(Http.BuildQuery(params), '&');
            && |pieces| == 5 && ReadsBack(params, pieces)
            && Text.Split(pieces[2], '=') == ["response_type", "code"]
  {
    var params := AuthorizeParams(clientId, redirectUri, scope, state);
    ResponseTypeReadsBack(params);
  }

  /** A query of five pairs whose third is response_type=code reads back as such. */
  lemma ResponseTypeReadsBack(params: Http.Form)
    requires |params| == 5 && params[2] == ("response_type", "code")
    ensures var pieces := Text.Split(Http.BuildQuery(params), '&');
            && |pieces| == 5 && ReadsBack(params, pieces)
            && Text.Split(pieces[2], '=') == ["response_type", "code"]
  {
    ReadBack(params);
    ResponseTypeEncoding();
  }

  /** Every built query reads back as its pairs. */
  lemma ReadBack(params: Http.Form)
    requires |params| >= 1
    ensures ReadsBack(params, Text.Split(Http.BuildQuery(params), '&'))
  {
    Http.BuildQuerySplits(params);
    forall i | 0 <= i < |params| ensures Http.UrlDecode(Http.UrlEncode(params[i].1)) == Text.Utf8(params[i].1) {
      Http.UrlDecodeEncode(params[i].1);
    }
  }

  /** Both words of "response_type=code" are unreserved, so urlencode keeps them. */
  lemma ResponseTypeEncoding()
    ensures Http.UrlEncode("response_type") == "response_type" && Http.UrlEncode("code") == "code"
  {
    ResponseTypeKept();
    CodeKept();
  }

  lemma ResponseTypeKept()
    ensures Http.UrlEncode("response_type") == "response_type"
  {
    var w := "response_type";
    forall i | 0 <= i < |w| ensures Http.Unreserved(w[i]) {
    }
    Http.EncodeKeeps(w);
  }

  lemma CodeKept()
    ensures Http.UrlEncode("code") == "code"
  {
    var w := "code";
    assert Http.Unreserved(w[0]) && Http.Unreserved(w[1]) && Http.Unreserved(w[2]) && Http.Unreserved(w[3]);
    Http.EncodeKeeps(w);
  }

  /** The token request of section 4.1.3 of RFC 6749. */
  function TokenForm(clientId: string, clientSecret: string, redirectUri: string, code: string): (form: Http.Form)
    ensures Http.FormValue(form, "grant_type") == Some("authorization_code")
    ensures Http.FormValue(form, "code") == Some(code)
    ensures Http.FormValue(form, "redirect_uri") == Some(redirectUri)
    ensures Http.FormValue(form, "client_id") == Some(clientId)
    ensures Http.FormValue(form, "client_secret") == Some(clientSecret)
    ensures Http.FormValue(form, "scope") == Some("read write")
  {
    var form := [("client_id", clientId), ("client_secret", clientSecret), ("redirect_uri", redirectUri),
                 ("grant_type", "authorization_code"), ("code", code), ("scope", "read write")];
    Http.FormValueAt(form, 1, "client_secret");
    Http.FormValueAt(form, 2, "redirect_uri");
    Http.FormValueAt(form, 3, "grant_type");
    Http.FormValueAt(form, 4, "code");
    Http.FormValueAt(form, 5, "scope");
    form
  }

  function TokenRequest(instance: string, clientId: string, clientSecret: string, redirectUri: string, code: string): Http.Request {
    Http.Request(Http.POST, NormalizeInstance(instance) + "/oauth/token", [], [],
      Http.FormBody(TokenForm(clientId, clientSecret, redirectUri, code)))
  }

  /** exchangeToken: the access token, or "Invalid token response" without one. */
  function ExchangeToken(instance: string, clientId: string, clientSecret: string, redirectUri: string, code: string,
                         send: Http.Transport): (r: Result<string>)
    ensures var resp := send(TokenRequest(instance, clientId, clientSecret, redirectUri, code));
            && (r.Ok? <==> resp.Ok? && Http.HasKeys(resp.value, ["access_token"]))
            && (r.Ok? ==> r.value == Json.ToStr(Json.At(resp.value, "access_token")))
            && (resp.Ok? && r.Err? ==> r.error == "Invalid token response")
  {
    var checked := Http.RequireKeys(send(TokenRequest(instance, clientId, clientSecret, redirectUri, code)),
                                    ["access_token"], "Invalid token response");
    if checked.Err? then Err(checked.error) else Ok(Json.ToStr(Json.At(checked.value, "access_token")))
  }

  function VerifyRequest(instance: string, token: string): Http.Request {
    Http.Request(Http.GET, NormalizeInstance(instance) + "/api/v1/accounts/verify_credentials", Bearer(token), [], Http.NoBody)
  }

  /** verifyCredentials: the account object as decoded, when it is an array. */
  function VerifyCredentials(instance: string, token: string, send: Http.Transport): (r: Result<Json.Value>)
    ensures var resp := send(VerifyRequest(instance, token));
            && (r.Ok? <==> resp.Ok? && Json.IsArray(resp.value))
            && (r.Ok? ==> r == resp)
            && (resp.Ok? && r.Err? ==> r.error == "Invalid verify_credentials response")
  {
    Http.RequireKeys(send(VerifyRequest(instance, token)), [], "Invalid verify_credentials response")
  }

  // ---------------------------------------------------------------- media and statuses

  /** basename($path): the part after the last '/', trailing slashes ignored. */
  function Basename(path: string): (r: string)
    ensures '/' !in r
  {
    var p := Text.RTrimChar(path, '/');
    match Text.LastIndexOf(p, '/')
    case None => p
    case Some(i) => p[i + 1..]
  }

  function MediaRequest(instance: string, token: string, path: string, contents: seq<nat>): Http.Request {
    Http.Request(Http.POST, NormalizeInstance(instance) + "/api/v2/media", Bearer(token), [],
      Http.Multipart("file", Basename(path), contents))
  }

  /**
   * uploadMedia: `fileOpen` is the outcome of opening the file (an exception
   * ends the call before the request); the media id is required.
   */
  function UploadMedia(instance: string, token: string, path: string, fileOpen: Result<seq<nat>>,
                       send: Http.Transport): (r: Result<string>)
    ensures fileOpen.Err? ==> r == Err(fileOpen.error)
    ensures fileOpen.Ok? ==>
              var resp := send(MediaRequest(instance, token, path, fileOpen.value));
              && (r.Ok? <==> resp.Ok? && Http.HasKeys(resp.value, ["id"]))
              && (r.Ok? ==> r.value == Json.ToStr(Json.At(resp.value, "id")))
              && (resp.Ok? && r.Err? ==> r.error == "Invalid media upload response")
  {
    if fileOpen.Err? then Err(fileOpen.error)
    else
      var checked := Http.RequireKeys(send(MediaRequest(instance, token, path, fileOpen.value)), ["id"],
                                      "Invalid media upload response");
      if checked.Err? then Err(checked.error) else Ok(Json.ToStr(Json.At(checked.value, "id")))
  }

  /** The status form: always the text; the media id and the reply id only when given. */
  function StatusForm(text: string, mediaId: Option<string>, inReplyToId: Option<string>): (form: Http.Form)
    ensures Http.FormValue(form, "status") == Some(text)
    ensures Http.FormValue(form, "media_ids[]") == mediaId
    ensures Http.FormValue(form, "in_reply_to_id") == inReplyToId
    ensures |form| == 1 + (if mediaId.Some? then 1 else 0) + (if inReplyToId.Some? then 1 else 0)
  {
    var media := if mediaId.Some? then [("media_ids[]", mediaId.value)] else [];
    var reply := if inReplyToId.Some? then [("in_reply_to_id", inReplyToId.value)] else [];
    var form := [("status", text)] + media + reply;
    assert mediaId.Some? ==> Http.FormValue(form, "media_ids[]") == mediaId by {
      if mediaId.Some? { Http.FormValueAt(form, 1, "media_ids[]"); }
    }
    assert inReplyToId.Some? ==> Http.FormValue(form, "in_reply_to_id") == inReplyToId by {
      if inReplyToId.Some? { Http.FormValueAt(form, |form| - 1, "in_reply_to_id"); }
    }
    form
  }

  function StatusRequest(instance: string, token: string, text: string, mediaId: Option<string>,
                         inReplyToId: Option<string>): Http.Request {
    Http.Request(Http.POST, NormalizeInstance(instance) + "/api/v1/statuses", Bearer(token), [],
      Http.FormBody(StatusForm(text, mediaId, inReplyToId)))
  }

  /** postStatus: the created status as decoded, which must carry an id. */
  function PostStatus(instance: string, token: string, text: string, mediaId: Option<string>, inReplyToId: Option<string>,
                      send: Http.Transport): (r: Result<Json.Value>)
    ensures var resp := send(StatusRequest(instance, token, text, mediaId, inReplyToId));
            && (r.Ok? <==> resp.Ok? && Http.HasKeys(resp.value, ["id"]))
            && (r.Ok? ==> r == resp)
            && (resp.Ok? && r.Err? ==> r.error == "Invalid status post response")
  {
    Http.RequireKeys(send(StatusRequest(instance, token, text, mediaId, inReplyToId)), ["id"], "Invalid status post response")
  }
}
