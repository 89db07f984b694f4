/**
 * The Bluesky (AT Protocol) client: base-URL normalisation, the session,
 * blob upload, image embed and post record it sends, the handle resolver
 * and the rich-text facets it derives from a post's text. The HTTP client
 * is a Transport; the three regular expressions of parseFacets are given as
 * their match lists.
 */
module BlueskyClient {
  import opened Wrappers
  import Text
  import Json
  import Http

  const DefaultInstance := "https://bsky.social"

  /** normalizeInstance. */
  function NormalizeInstance(instance: string): (r: string)
    ensures Text.IsBlank(instance) ==> r == DefaultInstance
    ensures !Text.IsBlank(instance) ==> Text.StartsWith(r, "http") && r[|r| - 1] != '/'
    ensures !Text.IsBlank(instance) && Text.StartsWith(Text.Trim(instance), "http")
            ==> r == Text.RTrimChar(Text.Trim(instance), '/')
    ensures !Text.IsBlank(instance) && !Text.StartsWith(Text.Trim(instance), "http")
            ==> r == Text.RTrimChar("https://" + Text.Trim(instance), '/')
  {
    Http.NormalizeBaseUrl(instance, DefaultInstance)
  }

  function Bearer(accessJwt: string): Http.Form {
    [("Authorization", "Bearer " + accessJwt)]
  }

  // ---------------------------------------------------------------- session

  datatype Session = Session(did: string, accessJwt: string, refreshJwt: string)

  function SessionRequest(instance: string, identifier: string, password: string): Http.Request {
    Http.Request(Http.POST, NormalizeInstance(instance) + "/xrpc/com.atproto.server.createSession", [], [],
      Http.JsonBody(Json.Object([("identifier", Json.Str(identifier)), ("password", Json.Str(password))])))
  }

  /**
   * createSession: the session's three strings, or "Invalid Bluesky session
   * response" unless did, accessJwt and refreshJwt are all set.
   */
  function CreateSession(instance: string, identifier: string, password: string, send: Http.Transport): (r: Result<Session>)
    ensures var resp := send(SessionRequest(instance, identifier, password));
            && (r.Ok? <==> resp.Ok? && Http.HasKeys(resp.value, ["did", "accessJwt", "refreshJwt"]))
            && (r.Ok? ==> r.value == Session(Json.ToStr(Json.At(resp.value, "did")), Json.ToStr(Json.At(resp.value, "accessJwt")),
                                             Json.ToStr(Json.At(resp.value, "refreshJwt"))))
            && (resp.Ok? && r.Err? ==> r.error == "Invalid Bluesky session response")
  {
    var checked := Http.RequireKeys(send(SessionRequest(instance, identifier, password)),
                                    ["did", "accessJwt", "refreshJwt"], "Invalid Bluesky session response");
    if checked.Err? then Err(checked.error)
    else
      var j := checked.value;
      Ok(Session(Json.ToStr(Json.At(j, "did")), Json.ToStr(Json.At(j, "accessJwt")), Json.ToStr(Json.At(j, "refreshJwt"))))
  }

  // ---------------------------------------------------------------- images

  datatype Upload = Upload(blob: Json.Value, width: int, height: int)

  function UploadRequest(instance: string, accessJwt: string, bin: seq<nat>): Http.Request {
    Http.Request(Http.POST, NormalizeInstance(instance) + "/xrpc/com.atproto.repo.uploadBlob",
      Bearer(accessJwt) + [("Content-Type", "image/jpeg")], [], Http.RawBody(bin))
  }

  /**
   * uploadImage: `file` is what file_get_contents read and `size` what
   * getimagesize reported; each failure is reported before any request,
   * and the blob is required in the response.
   */
  function UploadImage(instance: string, accessJwt: string, path: string,
                       file: Option<seq<nat>>, size: Option<(int, int)>, send: Http.Transport): (r: Result<Upload>)
    ensures file.None? ==> r == Err("Unable to read image: " + path)
    ensures file.Some? && size.None? ==> r == Err("Unable to get image dimensions: " + path)
    ensures file.Some? && size.Some? ==>
              var resp := send(UploadRequest(instance, accessJwt, file.value));
              && (r.Ok? <==> resp.Ok? && Http.HasKeys(resp.value, ["blob"]))
              && (r.Ok? ==> r.value == Upload(Json.At(resp.value, "blob"), size.value.0, size.value.1))
              && (resp.Ok? && r.Err? ==> r.error == "Invalid uploadBlob response")
  {
    if file.None? then Err("Unable to read image: " + path)
    else if size.None? then Err("Unable to get image dimensions: " + path)
    else
      var checked := Http.RequireKeys(send(UploadRequest(instance, accessJwt, file.value)), ["blob"], "Invalid uploadBlob response");
      if checked.Err? then Err(checked.error)
      else Ok(Upload(Json.At(checked.value, "blob"), size.value.0, size.value.1))
  }

  /** makeImageEmbed: an images embed holding exactly one image. */
  function MakeImageEmbed(blob: Json.Value, alt: string, width: int, height: int): (r: Json.Value)
    ensures Json.At(r, "$type") == Json.Str("app.bsky.embed.images")
    ensures |Json.Elements(Json.At(r, "images"))| == 1
    ensures var image := Json.Elements(Json.At(r, "images"))[0];
            && Json.At(image, "alt") == Json.Str(alt)
            && Json.At(image, "image") == blob
            && Json.At(Json.At(image, "aspectRatio"), "width") == Json.Num(width)
            && Json.At(Json.At(image, "aspectRatio"), "height") == Json.Num(height)
  {
    var ratio := [("width", Json.Num(width)), ("height", Json.Num(height))];
    var image := [("alt", Json.Str(alt)), ("image", blob), ("aspectRatio", Json.Object(ratio))];
    var embed := [("$type", Json.Str("app.bsky.embed.images")), ("images", Json.List([Json.Object(image)]))];
    Json.GetAt(embed, 0, "$type");
    Json.GetAt(embed, 1, "images");
    Json.GetAt(image, 0, "alt");
    Json.GetAt(image, 1, "image");
    Json.GetAt(image, 2, "aspectRatio");
    Json.GetAt(ratio, 0, "width");
    Json.GetAt(ratio, 1, "height");
    Json.Object(embed)
  }

  // ---------------------------------------------------------------- handles

  /** The query resolveHandle sends: the handle without its leading '@' characters. */
  function ResolveQuery(handle: string): Http.Form {
    [("handle", Text.LTrimChar(handle, '@'))]
  }

  function ResolveRequest(instance: string, handle: string): Http.Request {
    Http.Request(Http.GET, NormalizeInstance(instance) + "/xrpc/com.atproto.identity.resolveHandle", [],
      ResolveQuery(handle), Http.NoBody)
  }

  /**
   * resolveHandle: the DID the server returns for the handle without its
   * leading '@' characters; null for an exception or a body without a DID.
   */
  function ResolveHandle(instance: string, handle: string, send: Http.Transport): (r: Option<string>)
    ensures var resp := send(ResolveRequest(instance, handle));
            && (r.Some? <==> resp.Ok? && Json.IsArray(resp.value) && Json.IsSet(resp.value, "did"))
            && (r.Some? ==> r.value == Json.ToStr(Json.At(resp.value, "did")))
  {
    var resp := send(ResolveRequest(instance, handle));
    if resp.Ok? && Json.IsArray(resp.value) && Json.IsSet(resp.value, "did") then Some(Json.ToStr(Json.At(resp.value, "did")))
    else None
  }

  /** The handle the resolver is asked about never starts with '@', and only leading '@' were removed. */
  lemma ResolveQueryHasNoAt(handle: string)
    ensures var q := ResolveQuery(handle);
            |q| == 1 && q[0].0 == "handle"
            && (q[0].1 == [] || q[0].1[0] != '@')
            && handle == seq(|handle| - |q[0].1|, _ => '@') + q[0].1
  {
    var h := Text.LTrimChar(handle, '@');
    assert handle == seq(|handle| - |h|, _ => '@') + h;
  }

  // ---------------------------------------------------------------- facets

  datatype Feature = Mention(did: string) | Tag(tag: string) | Link(uri: string)

  /** A rich-text facet: a byte range of the UTF-8 text and what it denotes. */
  datatype Facet = Facet(byteStart: nat, byteEnd: nat, feature: Feature)

  /** One match of a pattern: the code point where it starts, and the matched text. */
  datatype Match = Match(at: nat, matched: string)

  /** A hashtag match with its first capture group (the tag without '#'). */
  datatype TagMatch = TagMatch(m: Match, tag: string)

  /** The match really is the text at its position. */
  predicate Occurs(text: string, m: Match) {
    m.at + |m.matched| <= |text| && text[m.at..m.at + |m.matched|] == m.matched
  }

  /** The offset preg_match_all reports with PREG_OFFSET_CAPTURE under /u: bytes, not code points. */
  function PregOffset(text: string, at: nat): nat {
    Text.ByteLen(text[..if at <= |text| then at else |text|])
  }

  /** strlen(substr($text, 0, $n)): substr counts bytes and stops at the end. */
  function SubstrByteLen(text: string, n: nat): (r: nat)
    ensures r <= n && r <= Text.ByteLen(text)
  {
    if n <= Text.ByteLen(text) then n else Text.ByteLen(text)
  }

  /** The facet for one match: byteStart from the reported offset, byteEnd past the match's bytes. */
  function FacetOf(text: string, m: Match, feature: Feature): (f: Facet)
    ensures f.byteEnd - f.byteStart == Text.ByteLen(m.matched)
  {
    var start := SubstrByteLen(text, PregOffset(text, m.at));
    Facet(start, start + Text.ByteLen(m.matched), feature)
  }

  /** The facets of the mention loop: one per match whose handle resolves, in order. */
  function MentionFacets(text: string, ms: seq<Match>, resolve: string -> Option<string>): (fs: seq<Facet>)
    ensures |fs| <= |ms|
    ensures forall i :: 0 <= i < |fs| ==> fs[i].feature.Mention?
  {
    if ms == [] then []
    else
      var last := ms[|ms| - 1];
      var did := resolve(last.matched);
      MentionFacets(text, ms[..|ms| - 1], resolve)
        + (if did.Some? then [FacetOf(text, last, Mention(did.value))] else [])
  }

  /** The facets of the hashtag loop: one per match, tagged with its capture group. */
  function TagFacets(text: string, ts: seq<TagMatch>): (fs: seq<Facet>)
    ensures |fs| == |ts|
    ensures forall i :: 0 <= i < |ts| ==> fs[i] == FacetOf(text, ts[i].m, Tag(ts[i].tag))
  {
    if ts == [] then []
    else TagFacets(text, ts[..|ts| - 1]) + [FacetOf(text, ts[|ts| - 1].m, Tag(ts[|ts| - 1].tag))]
  }

  /** The facets of the link loop: one per URL match, linking to the matched text. */
  function LinkFacets(text: string, us: seq<Match>): (fs: seq<Facet>)
    ensures |fs| == |us|
    ensures forall i :: 0 <= i < |us| ==> fs[i] == FacetOf(text, us[i], Link(us[i].matched))
  {
    if us == [] then []
    else LinkFacets(text, us[..|us| - 1]) + [FacetOf(text, us[|us| - 1], Link(us[|us| - 1].matched))]
  }

  /**
   * parseFacets: the mention, hashtag and link loops in that order, each
   * appending one facet per match (mentions only when the handle resolves).
   */
  method ParseFacets(text: string, mentions: seq<Match>, hashtags: seq<TagMatch>, urls: seq<Match>,
                     resolve: string -> Option<string>) returns (facets: seq<Facet>)
    ensures facets == MentionFacets(text, mentions, resolve) + TagFacets(text, hashtags) + LinkFacets(text, urls)
  {
    var mentionFacets := CollectMentions(text, mentions, resolve);
    var tagFacets := CollectTags(text, hashtags);
    var linkFacets := CollectLinks(text, urls);
    facets := mentionFacets + tagFacets + linkFacets;
  }

  /** The mention loop: a facet for each mention whose handle resolves. */
  method CollectMentions(text: string, mentions: seq<Match>, resolve: string -> Option<string>)
    returns (facets: seq<Facet>)
    ensures facets == MentionFacets(text, mentions, resolve)
  {
    facets := [];
    var i := 0;
    while i < |mentions|
      invariant 0 <= i <= |mentions|
      invariant facets == MentionFacets(text, mentions[..i], resolve)
    {
      var m := mentions[i];
      var did := resolve(m.matched);
      var next := if did.Some? then facets + [FacetOf(text, m, Mention(did.value))] else facets;
      assert next == MentionFacets(text, mentions[..i + 1], resolve) by {
        assert mentions[..i + 1][..i] == mentions[..i];
      }
      facets := next;
      i := i + 1;
    }
    assert mentions[..i] == mentions;
  }

  /** The hashtag loop: a facet for each tag. */
  method CollectTags(text: string, hashtags: seq<TagMatch>) returns (tagFacets: seq<Facet>)
    ensures tagFacets == TagFacets(text, hashtags)
  {
    tagFacets := [];
    var i := 0;
    while i < |hashtags|
      invariant 0 <= i <= |hashtags|
      invariant tagFacets == TagFacets(text, hashtags[..i])
    {
      var next := tagFacets + [FacetOf(text, hashtags[i].m, Tag(hashtags[i].tag))];
      assert next == TagFacets(text, hashtags[..i + 1]) by {
        assert hashtags[..i + 1][..i] == hashtags[..i];
      }
      tagFacets := next;
      i := i + 1;
    }
    assert hashtags[..i] == hashtags;
  }

  /** The link loop: a facet for each URL. */
  method CollectLinks(text: string, urls: seq<Match>) returns (linkFacets: seq<Facet>)
    ensures linkFacets == LinkFacets(text, urls)
  {
    linkFacets := [];
    var i := 0;
    while i < |urls|
      invariant 0 <= i <= |urls|
      invariant linkFacets == LinkFacets(text, urls[..i])
    {
      var next := linkFacets + [FacetOf(text, urls[i], Link(urls[i].matched))];
      assert next == LinkFacets(text, urls[..i + 1]) by {
        assert urls[..i + 1][..i] == urls[..i];
      }
      linkFacets := next;
      i := i + 1;
    }
    assert urls[..i] == urls;
  }

  /** `f` is the facet of one of the matches in `ms`, whose handle resolved to the facet's DID. */
  ghost predicate ResolvedFrom(text: string, ms: seq<Match>, resolve: string -> Option<string>, f: Facet) {
    exists i :: 0 <= i < |ms| && resolve(ms[i].matched).Some? && f == FacetOf(text, ms[i], Mention(resolve(ms[i].matched).value))
  }

  /** A mention facet is emitted exactly for the matches whose handle resolves, carrying that DID. */
  lemma {:induction false} MentionFacetsResolved(text: string, ms: seq<Match>, resolve: string -> Option<string>)
    ensures forall f :: f in MentionFacets(text, ms, resolve) ==> ResolvedFrom(text, ms, resolve, f)
    ensures (forall i :: 0 <= i < |ms| ==> resolve(ms[i].matched).None?) ==> MentionFacets(text, ms, resolve) == []
    ensures (forall i :: 0 <= i < |ms| ==> resolve(ms[i].matched).Some?) ==> |MentionFacets(text, ms, resolve)| == |ms|
  {
    if ms != [] {
      var init := ms[..|ms| - 1];
      MentionFacetsResolved(text, init, resolve);
      var prev := MentionFacets(text, init, resolve);
      forall f | f in MentionFacets(text, ms, resolve) ensures ResolvedFrom(text, ms, resolve, f) {
        if f in prev {
          assert ResolvedFrom(text, init, resolve, f);
          var i :| 0 <= i < |init| && resolve(init[i].matched).Some? && f == FacetOf(text, init[i], Mention(resolve(init[i].matched).value));
          assert init[i] == ms[i];
        } else {
          assert resolve(ms[|ms| - 1].matched).Some?;
        }
      }
      assert forall i :: 0 <= i < |init| ==> init[i] == ms[i];
    }
  }

  /**
   * A facet's byte range covers exactly the UTF-8 bytes of its match within
   * the UTF-8 text, as AT Protocol rich-text facets require.
   */
  lemma FacetSpansMatch(text: string, m: Match, feature: Feature)
    requires Occurs(text, m)
    ensures var f := FacetOf(text, m, feature);
            f.byteStart <= f.byteEnd <= |Text.Utf8(text)|
            && Text.Utf8(text)[f.byteStart..f.byteEnd] == Text.Utf8(m.matched)
  {
    var pre, post := text[..m.at], text[m.at + |m.matched|..];
    assert text == pre + m.matched + post;
    Text.Utf8Append(pre + m.matched, post);
    Text.Utf8Append(pre, m.matched);
    Text.ByteLenAppend(pre + m.matched, post);
    assert PregOffset(text, m.at) == |Text.Utf8(pre)|;
  }

  /** The facet's byte range lies within the UTF-8 text and holds exactly the bytes of some match in it. */
  ghost predicate SpansSomeMatch(text: string, f: Facet) {
    f.byteStart <= f.byteEnd <= |Text.Utf8(text)|
    && exists m :: Occurs(text, m) && Text.Utf8(text)[f.byteStart..f.byteEnd] == Text.Utf8(m.matched)
  }

  /** Every facet parseFacets returns spans exactly its match's bytes. */
  lemma ParsedFacetsSpanMatches(text: string, mentions: seq<Match>, hashtags: seq<TagMatch>, urls: seq<Match>,
                                resolve: string -> Option<string>)
    requires forall i :: 0 <= i < |mentions| ==> Occurs(text, mentions[i])
    requires forall i :: 0 <= i < |hashtags| ==> Occurs(text, hashtags[i].m)
    requires forall i :: 0 <= i < |urls| ==> Occurs(text, urls[i])
    ensures forall f :: f in MentionFacets(text, mentions, resolve) + TagFacets(text, hashtags) + LinkFacets(text, urls)
                        ==> SpansSomeMatch(text, f)
  {
    var ms := MentionFacets(text, mentions, resolve);
    var ts := TagFacets(text, hashtags);
    var ls := LinkFacets(text, urls);
    var fs := ms + ts + ls;
    MentionFacetsResolved(text, mentions, resolve);
    forall f | f in fs ensures SpansSomeMatch(text, f) {
      if f in ms {
        assert ResolvedFrom(text, mentions, resolve, f);
        var i :| 0 <= i < |mentions| && resolve(mentions[i].matched).Some?
                 && f == FacetOf(text, mentions[i], Mention(resolve(mentions[i].matched).value));
        FacetSpansMatch(text, mentions[i], f.feature);
      } else if f in ts {
        var i :| 0 <= i < |ts| && ts[i] == f;
        FacetSpansMatch(text, hashtags[i].m, Tag(hashtags[i].tag));
      } else {
        assert f in ls;
        var i :| 0 <= i < |ls| && ls[i] == f;
        FacetSpansMatch(text, urls[i], Link(urls[i].matched));
      }
    }
  }

  // ---------------------------------------------------------------- posts

  /** A strong reference to a record: the {uri, cid} pair createRecord returns. */
  datatype StrongRef = StrongRef(uri: string, cid: string)

  function RefJson(r: StrongRef): Json.Value {
    Json.Object([("uri", Json.Str(r.uri)), ("cid", Json.Str(r.cid))])
  }

  function FeatureJson(f: Feature): Json.Value {
    match f
    case Mention(did) => Json.Object([("$type", Json.Str("app.bsky.richtext.facet#mention")), ("did", Json.Str(did))])
    case Tag(tag) => Json.Object([("$type", Json.Str("app.bsky.richtext.facet#tag")), ("tag", Json.Str(tag))])
    case Link(uri) => Json.Object([("$type", Json.Str("app.bsky.richtext.facet#link")), ("uri", Json.Str(uri))])
  }

  function FacetJson(f: Facet): Json.Value {
    Json.Object([
      ("index", Json.Object([("byteStart", Json.Num(f.byteStart)), ("byteEnd", Json.Num(f.byteEnd))])),
      ("features", Json.List([FeatureJson(f.feature)]))])
  }

  function FacetsJson(fs: seq<Facet>): (r: seq<Json.Value>)
    ensures |r| == |fs|
    ensures forall i :: 0 <= i < |fs| ==> r[i] == FacetJson(fs[i])
  {
    if fs == [] then [] else [FacetJson(fs[0])] + FacetsJson(fs[1..])
  }

  /**
   * The app.bsky.feed.post record createPost sends: facets only when there
   * are some, the embed only when given, and a reply only when both root and
   * parent are given.
   */
  function PostRecord(text: string, createdAt: string, facets: seq<Facet>, embed: Option<Json.Value>,
                      root: Option<StrongRef>, parent: Option<StrongRef>): (r: Json.Value)
    ensures Json.At(r, "$type") == Json.Str("app.bsky.feed.post")
    ensures Json.At(r, "text") == Json.Str(text)
    ensures Json.At(r, "createdAt") == Json.Str(createdAt)
    ensures Json.Get(r, "facets").Some? <==> facets != []
    ensures facets != [] ==> Json.At(r, "facets") == Json.List(FacetsJson(facets))
    ensures Json.Get(r, "embed") == embed
    ensures Json.Get(r, "reply").Some? <==> root.Some? && parent.Some?
    ensures root.Some? && parent.Some? ==>
              Json.At(r, "reply") == Json.Object([("root", RefJson(root.value)), ("parent", RefJson(parent.value))])
  {
    var base := [("$type", Json.Str("app.bsky.feed.post")), ("text", Json.Str(text)), ("createdAt", Json.Str(createdAt))];
    var withFacets := if facets != [] then base + [("facets", Json.List(FacetsJson(facets)))] else base;
    var withEmbed := if embed.Some? then withFacets + [("embed", embed.value)] else withFacets;
    var reply := Json.Object([("root", RefJson(root.GetOr(StrongRef("", "")))), ("parent", RefJson(parent.GetOr(StrongRef("", ""))))]);
    var fields := if root.Some? && parent.Some? then withEmbed + [("reply", reply)] else withEmbed;
    PostRecordReads(base, withFacets, withEmbed, fields, facets != [], embed, root.Some? && parent.Some?,
                    Json.List(FacetsJson(facets)), reply);
    Json.Object(fields)
  }

  /** The reads PostRecord promises, over its three optional appends. */
  lemma PostRecordReads(base: seq<(string, Json.Value)>, withFacets: seq<(string, Json.Value)>,
                        withEmbed: seq<(string, Json.Value)>, fields: seq<(string, Json.Value)>,
                        hasFacets: bool, embed: Option<Json.Value>, hasReply: bool, facets: Json.Value, reply: Json.Value)
    requires |base| == 3 && base[0].0 == "$type" && base[1].0 == "text" && base[2].0 == "createdAt"
    requires withFacets == if hasFacets then base + [("facets", facets)] else base
    requires withEmbed == if embed.Some? then withFacets + [("embed", embed.value)] else withFacets
    requires fields == if hasReply then withEmbed + [("reply", reply)] else withEmbed
    ensures forall i :: 0 <= i < 3 ==> Json.Get(Json.Object(fields), base[i].0) == Some(base[i].1)
    ensures Json.Get(Json.Object(fields), "facets") == if hasFacets then Some(facets) else None
    ensures Json.Get(Json.Object(fields), "embed") == embed
    ensures Json.Get(Json.Object(fields), "reply") == if hasReply then Some(reply) else None
  {
    forall i | 0 <= i < 3 ensures Json.Get(Json.Object(fields), base[i].0) == Some(base[i].1) {
      Json.GetAt(fields, i, base[i].0);
    }
    Json.GetAbsent(base, "facets");
    Json.GetAbsent(base, "embed");
    Json.GetAbsent(base, "reply");
    if hasFacets {
      Json.GetSnoc(base, "facets", facets, "facets");
      Json.GetSnoc(base, "facets", facets, "embed");
      Json.GetSnoc(base, "facets", facets, "reply");
    }
    if embed.Some? {
      Json.GetSnoc(withFacets, "embed", embed.value, "facets");
      Json.GetSnoc(withFacets, "embed", embed.value, "embed");
      Json.GetSnoc(withFacets, "embed", embed.value, "reply");
    }
    if hasReply {
      Json.GetSnoc(withEmbed, "reply", reply, "facets");
      Json.GetSnoc(withEmbed, "reply", reply, "embed");
      Json.GetSnoc(withEmbed, "reply", reply, "reply");
    }
  }

  function CreateRecordRequest(instance: string, did: string, accessJwt: string, record: Json.Value): Http.Request {
    Http.Request(Http.POST, NormalizeInstance(instance) + "/xrpc/com.atproto.repo.createRecord", Bearer(accessJwt), [],
      Http.JsonBody(Json.Object([("repo", Json.Str(did)), ("collection", Json.Str("app.bsky.feed.post")), ("record", record)])))
  }

  /**
   * createPost: parse the facets, assemble the record, send it, and require
   * uri and cid in the response. `createdAt` is the gmdate('c') clock value.
   */
  method CreatePost(instance: string, did: string, accessJwt: string, text: string, createdAt: string,
                    embed: Option<Json.Value>, root: Option<StrongRef>, parent: Option<StrongRef>,
                    mentions: seq<Match>, hashtags: seq<TagMatch>, urls: seq<Match>, send: Http.Transport)
    returns (record: Json.Value, r: Result<StrongRef>)
    ensures record == PostRecord(text, createdAt,
                                 MentionFacets(text, mentions, h => ResolveHandle(instance, h, send))
                                 + TagFacets(text, hashtags) + LinkFacets(text, urls),
                                 embed, root, parent)
    ensures var resp := send(CreateRecordRequest(instance, did, accessJwt, record));
            && (r.Ok? <==> resp.Ok? && Http.HasKeys(resp.value, ["uri", "cid"]))
            && (r.Ok? ==> r.value == StrongRef(Json.ToStr(Json.At(resp.value, "uri")), Json.ToStr(Json.At(resp.value, "cid"))))
            && (resp.Ok? && r.Err? ==> r.error == "Invalid createRecord response")
  {
    var facets := ParseFacets(text, mentions, hashtags, urls, h => ResolveHandle(instance, h, send));
    record := PostRecord(text, createdAt, facets, embed, root, parent);
    var checked := Http.RequireKeys(send(CreateRecordRequest(instance, did, accessJwt, record)), ["uri", "cid"],
                                    "Invalid createRecord response");
    if checked.Err? {
      r := Err(checked.error);
    } else {
      r := Ok(StrongRef(Json.ToStr(Json.At(checked.value, "uri")), Json.ToStr(Json.At(checked.value, "cid"))));
    }
  }
}
