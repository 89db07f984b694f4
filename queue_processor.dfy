/**
 * The send sweep (app/src/Processors/QueueProcessor.php): for each QUEUED
 * user, build the weekly post, split it for the network, publish it as a
 * thread and record the outcome in the users table.
 *
 * What lies outside the process is a parameter (`Outside`): the Last.fm
 * chart response, the language files, where a montage URL lives on disk and
 * whether that file exists, the decryption of the stored credentials, and
 * the endpoints of the two networks.
 */
module QueueProcessor {
  import opened Wrappers
  import Text
  import Json
  import Helpers
  import UserRepository
  import LastFmService
  import BlueskyClient

  // ---------------------------------------------------------------- splitTextForProtocol

  /** The longest post, in code points: 500 on Mastodon, 300 on any other network. */
  function Limit(protocol: string): nat {
    if protocol == "mastodon" then 500 else 300
  }

  /** No whitespace at either end. */
  predicate Trimmed(s: string) {
    s == [] || (!Text.IsWs(s[0]) && !Text.IsWs(s[|s| - 1]))
  }

  /** `kept` is `src` with some whitespace characters deleted, and nothing else changed. */
  ghost predicate DeletesOnlyWs(kept: string, src: string)
    decreases |src|
  {
    if src == [] then kept == []
    else (kept != [] && kept[0] == src[0] && DeletesOnlyWs(kept[1..], src[1..]))
         || (Text.IsWs(src[0]) && DeletesOnlyWs(kept, src[1..]))
  }

  lemma {:induction false} DeletesNothing(s: string)
    ensures DeletesOnlyWs(s, s)
  {
    if s != [] {
      DeletesNothing(s[1..]);
    }
  }

  lemma {:induction false} DeletesBlank(w: string)
    requires Text.IsBlank(w)
    ensures DeletesOnlyWs([], w)
  {
    if w != [] {
      assert Text.IsBlank(w[1..]) by { assert forall i :: 0 <= i < |w[1..]| ==> w[1..][i] == w[i + 1]; }
      DeletesBlank(w[1..]);
    }
  }

  /** Deleting whitespace from two texts deletes whitespace from their concatenation. */
  lemma {:induction false} DeletesConcat(a1: string, b1: string, a2: string, b2: string)
    requires DeletesOnlyWs(a1, b1) && DeletesOnlyWs(a2, b2)
    ensures DeletesOnlyWs(a1 + a2, b1 + b2)
    decreases |b1|
  {
    if b1 == [] {
      assert a1 + a2 == a2 && b1 + b2 == b2;
    } else if a1 != [] && a1[0] == b1[0] && DeletesOnlyWs(a1[1..], b1[1..]) {
      DeletesConcat(a1[1..], b1[1..], a2, b2);
      assert (a1 + a2)[1..] == a1[1..] + a2;
      assert (b1 + b2)[1..] == b1[1..] + b2;
    } else {
      DeletesConcat(a1, b1[1..], a2, b2);
      assert (b1 + b2)[1..] == b1[1..] + b2;
    }
  }

  /** Blank text around a kept text is only whitespace deleted. */
  lemma DeletesAround(lead: string, t: string, trail: string)
    requires Text.IsBlank(lead) && Text.IsBlank(trail)
    ensures DeletesOnlyWs(t, lead + t + trail)
  {
    DeletesBlank(lead);
    DeletesBlank(trail);
    DeletesNothing(t);
    DeletesConcat(t, t, [], trail);
    assert t + [] == t;
    DeletesConcat([], lead, t, t + trail);
    assert [] + t == t;
    assert lead + (t + trail) == lead + t + trail;
  }

  lemma LTrimSplit(s: string) returns (lead: string)
    ensures Text.IsBlank(lead) && s == lead + Text.LTrim(s)
  {
    var k := |s| - |Text.LTrim(s)|;
    lead := s[..k];
    assert s == s[..k] + s[k..];
    forall i | 0 <= i < |lead| ensures Text.IsWs(lead[i]) {
      assert lead[i] == s[i];
    }
  }

  lemma RTrimSplit(s: string) returns (trail: string)
    ensures Text.IsBlank(trail) && s == Text.RTrim(s) + trail
  {
    var k := |Text.RTrim(s)|;
    trail := s[k..];
    assert s == s[..k] + s[k..];
    forall i | 0 <= i < |trail| ensures Text.IsWs(trail[i]) {
      assert trail[i] == s[k + i];
    }
  }

  /** What trim removes is a blank prefix and a blank suffix. */
  lemma TrimSplits(s: string) returns (lead: string, trail: string)
    ensures Text.IsBlank(lead) && Text.IsBlank(trail)
    ensures s == lead + Text.Trim(s) + trail
  {
    var l := Text.LTrim(s);
    lead := LTrimSplit(s);
    trail := RTrimSplit(l);
    Associate(lead, Text.RTrim(l), trail);
    assert Text.Trim(s) == Text.RTrim(l);
  }

  lemma Associate<T>(a: seq<T>, b: seq<T>, c: seq<T>)
    ensures a + (b + c) == a + b + c
  {
  }

  /** trim only deletes whitespace. */
  lemma TrimDeletesOnlyWs(s: string)
    ensures DeletesOnlyWs(Text.Trim(s), s)
  {
    var lead, trail := TrimSplits(s);
    DeletesAround(lead, Text.Trim(s), trail);
  }

  /** The chunks written one after the other. */
  function Concat(chunks: seq<string>): string {
    if chunks == [] then "" else Concat(chunks[..|chunks| - 1]) + chunks[|chunks| - 1]
  }

  lemma ConcatSnoc(chunks: seq<string>, c: string)
    ensures Concat(chunks + [c]) == Concat(chunks) + c
  {
    assert (chunks + [c])[..|chunks|] == chunks;
  }

  /** array_values(array_filter($chunks, fn ($c) => $c !== '')): the non-empty chunks, in order. */
  function NonEmpty(chunks: seq<string>): (r: seq<string>)
    ensures |r| <= |chunks|
    ensures forall i :: 0 <= i < |r| ==> r[i] != "" && r[i] in chunks
    ensures forall c :: c in chunks && c != "" ==> c in r
    ensures Concat(r) == Concat(chunks)
  {
    if chunks == [] then []
    else
      var init := chunks[..|chunks| - 1];
      var last := chunks[|chunks| - 1];
      assert chunks == init + [last];
      var r := NonEmpty(init) + (if last != "" then [last] else []);
      ConcatSnoc(NonEmpty(init), last);
      assert Concat(chunks) == Concat(init) + last;
      assert last == "" ==> r == NonEmpty(init) && Concat(init) + last == Concat(init);
      r
  }

  /** A trimmed piece loses only whitespace from the piece and the whitespace skipped after it. */
  lemma CutLosesOnlyWs(piece: string, gap: string)
    requires Text.IsBlank(gap)
    ensures DeletesOnlyWs(Text.Trim(piece), piece + gap)
  {
    TrimDeletesOnlyWs(piece);
    DeletesBlank(gap);
    DeletesConcat(Text.Trim(piece), piece, [], gap);
    assert Text.Trim(piece) + [] == Text.Trim(piece);
  }

  /** Chunk by chunk losses add up. */
  lemma {:induction false} ConcatDeletesOnlyWs(kept: seq<string>, spans: seq<string>)
    requires |kept| == |spans|
    requires forall i :: 0 <= i < |kept| ==> DeletesOnlyWs(kept[i], spans[i])
    ensures DeletesOnlyWs(Concat(kept), Concat(spans))
  {
    if kept == [] {
      DeletesNothing("");
    } else {
      var n := |kept| - 1;
      ConcatDeletesOnlyWs(kept[..n], spans[..n]);
      DeletesConcat(Concat(kept[..n]), Concat(spans[..n]), kept[n], spans[n]);
    }
  }

  /**
   * The cuts of splitTextForProtocol lose only whitespace: chunk i is the
   * trimmed piece i, and span i is that piece followed by the blank gap
   * skipped after it.
   */
  lemma KeptChunksLoseOnlyWs(chunks: seq<string>, pieces: seq<string>, gaps: seq<string>, spans: seq<string>)
    requires |chunks| == |pieces| == |gaps| == |spans|
    requires forall i :: 0 <= i < |chunks| ==>
               chunks[i] == Text.Trim(pieces[i]) && Text.IsBlank(gaps[i]) && spans[i] == pieces[i] + gaps[i]
    ensures DeletesOnlyWs(Concat(NonEmpty(chunks)), Concat(spans))
  {
    forall i | 0 <= i < |chunks|
      ensures DeletesOnlyWs(chunks[i], spans[i])
    {
      CutLosesOnlyWs(pieces[i], gaps[i]);
    }
    ConcatDeletesOnlyWs(chunks, spans);
  }

  /**
   * What the splitting loop has produced so far: each chunk is its piece
   * trimmed, and each span is a piece followed by the blank gap skipped after it.
   */
  ghost predicate Cuts(chunks: seq<string>, pieces: seq<string>, gaps: seq<string>, spans: seq<string>, limit: nat) {
    && |chunks| == |pieces| == |gaps| == |spans|
    && (forall i :: 0 <= i < |chunks| ==>
          chunks[i] == Text.Trim(pieces[i]) && Text.IsBlank(gaps[i]) && spans[i] == pieces[i] + gaps[i])
    && (forall i :: 0 <= i < |chunks| ==> |chunks[i]| <= limit && Trimmed(chunks[i]))
  }

  /** Adding a piece and the blank gap after it keeps Cuts. */
  lemma CutsSnoc(chunks: seq<string>, pieces: seq<string>, gaps: seq<string>, spans: seq<string>,
                 limit: nat, piece: string, gap: string)
    requires Cuts(chunks, pieces, gaps, spans, limit)
    requires |piece| <= limit && Text.IsBlank(gap)
    ensures Cuts(chunks + [Text.Trim(piece)], pieces + [piece], gaps + [gap], spans + [piece + gap], limit)
  {
    var c := Text.Trim(piece);
    var chunks', pieces', gaps', spans' := chunks + [c], pieces + [piece], gaps + [gap], spans + [piece + gap];
    forall i | 0 <= i < |chunks'|
      ensures chunks'[i] == Text.Trim(pieces'[i]) && Text.IsBlank(gaps'[i]) && spans'[i] == pieces'[i] + gaps'[i]
      ensures |chunks'[i]| <= limit && Trimmed(chunks'[i])
    {
      if i < |chunks| {
        assert chunks'[i] == chunks[i] && pieces'[i] == pieces[i] && gaps'[i] == gaps[i] && spans'[i] == spans[i];
      } else {
        assert chunks'[i] == c && pieces'[i] == piece && gaps'[i] == gap && spans'[i] == piece + gap;
      }
    }
  }

  /** One turn of the splitting loop: the piece cut and the gap skipped make up what it consumes. */
  lemma CutStep(text: string, remaining: string, n: nat, spans: seq<string>) returns (gap: string)
    requires text == Concat(spans) + remaining
    requires n <= |remaining|
    ensures Text.IsBlank(gap)
    ensures text == Concat(spans + [remaining[..n] + gap]) + Text.LTrim(remaining[n..])
  {
    var piece := remaining[..n];
    var rest := remaining[n..];
    gap := LTrimSplit(rest);
    ConcatSnoc(spans, piece + gap);
    assert remaining == piece + rest;
    Regroup(Concat(spans), piece, gap, Text.LTrim(rest));
  }

  lemma Regroup(a: string, b: string, c: string, d: string)
    ensures a + (b + (c + d)) == (a + (b + c)) + d
  {
  }

  /**
   * How many characters the next piece takes: the first `limit` of what is
   * left, cut back to its last newline when that lies past position 20.
   */
  function CutLength(remaining: string, limit: nat): (n: nat)
    requires remaining != [] && limit > 0
    ensures 0 < n <= |remaining| && n <= limit
    ensures var m := if |remaining| < limit then |remaining| else limit;
            && (n < m <==> exists j :: 20 < j < m && remaining[j] == '\n')
            && (n < m ==> 20 < n && remaining[n] == '\n' && forall j :: n < j < m ==> remaining[j] != '\n')
  {
    var m := if |remaining| < limit then |remaining| else limit;
    var breakPos := Text.LastIndexOf(remaining[..m], '\n');
    CutAtLastNewline(remaining, m, breakPos);
    if breakPos.Some? && breakPos.value > 20 then breakPos.value else m
  }

  /** The last newline of the window, read on the text itself. */
  lemma CutAtLastNewline(remaining: string, m: nat, breakPos: Option<nat>)
    requires m <= |remaining| && breakPos == Text.LastIndexOf(remaining[..m], '\n')
    ensures breakPos.Some? ==> breakPos.value < m && remaining[breakPos.value] == '\n'
    ensures breakPos.Some? ==> forall j :: breakPos.value < j < m ==> remaining[j] != '\n'
    ensures breakPos.None? ==> forall j :: 0 <= j < m ==> remaining[j] != '\n'
  {
    var w := remaining[..m];
    if breakPos.Some? {
      var b := breakPos.value;
      forall j | b < j < m ensures remaining[j] != '\n' {
        assert remaining[j] == w[b + 1..][j - b - 1];
      }
    } else {
      forall j | 0 <= j < m ensures remaining[j] != '\n' {
        assert remaining[j] == w[j];
      }
    }
  }

  /**
   * The chunks the splitting loop collects from `remaining`, before the empty
   * ones are dropped: each is the trimmed piece CutLength takes, and the
   * whitespace after the cut is skipped. The final remainder, shorter than
   * the limit, is cut at its last newline past position 20 like any other.
   */
  function Chunks(remaining: string, limit: nat): (chunks: seq<string>)
    requires limit > 0
    decreases |remaining|
  {
    if remaining == [] then []
    else
      var n := CutLength(remaining, limit);
      [Text.Trim(remaining[..n])] + Chunks(Text.LTrim(remaining[n..]), limit)
  }

  /** The posts of a thread: the text alone within the limit, else its non-empty chunks. */
  function Threads(text: string, protocol: string): (threads: seq<string>)
  {
    if |text| <= Limit(protocol) then [text] else NonEmpty(Chunks(text, Limit(protocol)))
  }

  /** One turn of the loop moves the next chunk from what remains to what is collected. */
  lemma ChunksStep(chunks: seq<string>, remaining: string, limit: nat)
    requires remaining != [] && limit > 0
    ensures var n := CutLength(remaining, limit);
            chunks + Chunks(remaining, limit)
            == (chunks + [Text.Trim(remaining[..n])]) + Chunks(Text.LTrim(remaining[n..]), limit)
  {
    var n := CutLength(remaining, limit);
    Associate(chunks, [Text.Trim(remaining[..n])], Chunks(Text.LTrim(remaining[n..]), limit));
  }

  /**
   * splitTextForProtocol: a text within the limit is the only chunk, as it
   * is. A longer text is cut into chunks of at most `limit` code points,
   * each cut made at the last newline of the window when that newline lies
   * past position 20; every chunk is trimmed, the whitespace after a cut is
   * skipped and empty chunks are dropped, so only whitespace is lost.
   */
  method SplitTextForProtocol(text: string, protocol: string) returns (threads: seq<string>)
    ensures |text| <= Limit(protocol) ==> threads == [text]
    ensures |text| > Limit(protocol) ==>
              forall i :: 0 <= i < |threads| ==> threads[i] != "" && |threads[i]| <= Limit(protocol) && Trimmed(threads[i])
    ensures |text| > Limit(protocol) ==> DeletesOnlyWs(Concat(threads), text)
    ensures threads == Threads(text, protocol)
  {
    var limit := if protocol == "mastodon" then 500 else 300;
    if |text| <= limit {
      return [text];
    }
    var chunks: seq<string> := [];
    var remaining := text;
    ghost var pieces: seq<string> := [];
    ghost var gaps: seq<string> := [];
    ghost var spans: seq<string> := [];
    while remaining != ""
      invariant Cuts(chunks, pieces, gaps, spans, limit)
      invariant text == Concat(spans) + remaining
      invariant chunks + Chunks(remaining, limit) == Chunks(text, limit)
      decreases |remaining|
    {
      var n := CutLength(remaining, limit);
      var piece := remaining[..n];
      var rest := remaining[n..];
      ChunksStep(chunks, remaining, limit);
      ghost var gap := CutStep(text, remaining, n, spans);
      CutsSnoc(chunks, pieces, gaps, spans, limit, piece, gap);
      chunks := chunks + [Text.Trim(piece)];
      pieces := pieces + [piece];
      gaps := gaps + [gap];
      spans := spans + [piece + gap];
      remaining := Text.LTrim(rest);
    }
    assert text == Concat(spans);
    assert chunks == Chunks(text, limit) by { assert chunks + [] == chunks; }
    threads := NonEmpty(chunks);
    KeptChunksLoseOnlyWs(chunks, pieces, gaps, spans);
  }

  // ---------------------------------------------------------------- buildPostText

  /** Who the post mentions: the project's Mastodon account, or its Bluesky handle. */
  function Mention(protocol: string): string {
    if protocol == "mastodon" then "@lfm_blue@mastodon.social" else "@lastfm.blue"
  }

  /** One "name (playcount)" item of the artist list. */
  function ArtistPart(a: LastFmService.Artist): (s: string)
    ensures Helpers.Sprintf("%s (%d)", [Helpers.SArg(a.name), Helpers.IArg(a.playcount)]) == Some(s)
  {
    ArtistPartFormat(a.name, a.playcount);
    a.name + " (" + Text.IntToString(a.playcount) + ")"
  }

  /** The " (%d)" tail of an item prints the play count in parentheses. */
  lemma CountSuffixFormat(playcount: int)
    ensures Helpers.Sprintf(" (%d)", [Helpers.IArg(playcount)]) == Some(" (" + Text.IntToString(playcount) + ")")
  {
    assert " (%d)" == " (" + (['%', 'd'] + ")");
    Helpers.SprintfPlain(")", []);
    Helpers.SprintfStep(" (", 'd', Helpers.IArg(playcount), ")", []);
    assert [Helpers.IArg(playcount)] + [] == [Helpers.IArg(playcount)];
  }

  lemma ArtistPartFormat(name: string, playcount: int)
    ensures Helpers.Sprintf("%s (%d)", [Helpers.SArg(name), Helpers.IArg(playcount)])
            == Some(name + " (" + Text.IntToString(playcount) + ")")
  {
    var suffix := " (" + Text.IntToString(playcount) + ")";
    assert "%s (%d)" == [] + (['%', 's'] + " (%d)");
    CountSuffixFormat(playcount);
    Helpers.SprintfStep([], 's', Helpers.SArg(name), " (%d)", [Helpers.IArg(playcount)]);
    assert [Helpers.SArg(name)] + [Helpers.IArg(playcount)] == [Helpers.SArg(name), Helpers.IArg(playcount)];
    assert [] + name + suffix == name + " (" + Text.IntToString(playcount) + ")";
  }

  /** The items of the artist list, in chart order. */
  function ArtistParts(chart: seq<LastFmService.Artist>): (parts: seq<string>)
    ensures |parts| == |chart|
    ensures forall i :: 0 <= i < |chart| ==> parts[i] == ArtistPart(chart[i])
  {
    seq(|chart|, i requires 0 <= i < |chart| => ArtistPart(chart[i]))
  }

  lemma ArtistPartsSnoc(chart: seq<LastFmService.Artist>, a: LastFmService.Artist)
    ensures ArtistParts(chart + [a]) == ArtistParts(chart) + [ArtistPart(a)]
  {
  }

  /** The week's scrobbles: the sum of the chart's playcounts. */
  function TotalScrobbles(chart: seq<LastFmService.Artist>): int {
    if chart == [] then 0 else TotalScrobbles(chart[..|chart| - 1]) + chart[|chart| - 1].playcount
  }

  /** The post format "♫ %s: %s. #myweekcounted %s #music %s %s", written as its pieces. */
  const PostFormat: string :=
    "♫ " + ("%s" + (": " + ("%s" + (". #myweekcounted " + ("%s" + (" #music " + ("%s" + (" " + "%s"))))))))

  /** The post, as sprintf fills the five slots of the post format. */
  function PostText(topArtists: string, artistList: string, scrobbles: string, via: string, mention: string): (s: string)
    ensures Helpers.Sprintf(PostFormat, [Helpers.SArg(topArtists), Helpers.SArg(artistList), Helpers.SArg(scrobbles),
                                         Helpers.SArg(via), Helpers.SArg(mention)]) == Some(s)
  {
    PostFormatFills(topArtists, artistList, scrobbles, via, mention);
    ("♫ " + topArtists) + ((": " + artistList) + ((". #myweekcounted " + scrobbles) + ((" #music " + via) + (" " + mention))))
  }

  /** Five `%s` conversions between plain pieces print the five texts between those pieces. */
  lemma SprintfFive(l0: string, l1: string, l2: string, l3: string, l4: string,
                    a: string, b: string, c: string, d: string, e: string)
    requires Helpers.NoPercent(l0) && Helpers.NoPercent(l1) && Helpers.NoPercent(l2)
    requires Helpers.NoPercent(l3) && Helpers.NoPercent(l4)
    ensures var s := ['%', 's'];
            Helpers.Sprintf(l0 + (s + (l1 + (s + (l2 + (s + (l3 + (s + (l4 + (s + []))))))))),
                            [Helpers.SArg(a)] + ([Helpers.SArg(b)] + ([Helpers.SArg(c)] + ([Helpers.SArg(d)] + ([Helpers.SArg(e)] + [])))))
            == Some((l0 + a) + ((l1 + b) + ((l2 + c) + ((l3 + d) + (l4 + e)))))
  {
    var s := ['%', 's'];
    var f4, f3 := l4 + (s + []), l3 + (s + (l4 + (s + [])));
    var f2 := l2 + (s + f3);
    var f1 := l1 + (s + f2);
    var g4: seq<Helpers.Arg> := [Helpers.SArg(e)] + [];
    var g3 := [Helpers.SArg(d)] + g4;
    var g2 := [Helpers.SArg(c)] + g3;
    var g1 := [Helpers.SArg(b)] + g2;
    Helpers.SprintfPlain([], []);
    Helpers.SprintfStep(l4, 's', Helpers.SArg(e), [], []);
    var r4 := l4 + e;
    assert (l4 + e) + [] == r4;
    assert Helpers.Sprintf(f4, g4) == Some(r4);
    Helpers.SprintfStep(l3, 's', Helpers.SArg(d), f4, g4);
    var r3 := (l3 + d) + r4;
    assert Helpers.Sprintf(f3, g3) == Some(r3);
    Helpers.SprintfStep(l2, 's', Helpers.SArg(c), f3, g3);
    var r2 := (l2 + c) + r3;
    assert Helpers.Sprintf(f2, g2) == Some(r2);
    Helpers.SprintfStep(l1, 's', Helpers.SArg(b), f2, g2);
    var r1 := (l1 + b) + r2;
    assert Helpers.Sprintf(f1, g1) == Some(r1);
    Helpers.SprintfStep(l0, 's', Helpers.SArg(a), f1, g1);
  }

  lemma PostFormatFills(a: string, b: string, c: string, d: string, e: string)
    ensures Helpers.Sprintf(PostFormat, [Helpers.SArg(a), Helpers.SArg(b), Helpers.SArg(c), Helpers.SArg(d), Helpers.SArg(e)])
            == Some(("♫ " + a) + ((": " + b) + ((". #myweekcounted " + c) + ((" #music " + d) + (" " + e)))))
  {
    PostFormatPieces();
    assert [Helpers.SArg(a), Helpers.SArg(b), Helpers.SArg(c), Helpers.SArg(d), Helpers.SArg(e)]
           == [Helpers.SArg(a)] + ([Helpers.SArg(b)] + ([Helpers.SArg(c)] + ([Helpers.SArg(d)] + ([Helpers.SArg(e)] + []))));
    SprintfFive("♫ ", ": ", ". #myweekcounted ", " #music ", " ", a, b, c, d, e);
  }

  /** The post format is five `%s` conversions between plain pieces. */
  lemma PostFormatPieces()
    ensures var s := ['%', 's'];
            PostFormat == "♫ " + (s + (": " + (s + (". #myweekcounted " + (s + (" #music " + (s + (" " + (s + [])))))))))
    ensures Helpers.NoPercent("♫ ") && Helpers.NoPercent(": ") && Helpers.NoPercent(". #myweekcounted ")
    ensures Helpers.NoPercent(" #music ") && Helpers.NoPercent(" ")
  {
    assert "%s" + [] == "%s";
  }

  /**
   * The post for a chart: the translated "top artists" label, the artist
   * items joined by single spaces, the translated scrobble count, the
   * translated "via" label and the mention.
   */
  function ExpectedPostText(protocol: string, chart: seq<LastFmService.Artist>,
                            catalogs: map<string, Helpers.Catalog>, language: string): Result<string>
    requires "en" in catalogs
  {
    var scrobbles := Helpers.Translate(catalogs, "post.scrobbles", [Helpers.IArg(TotalScrobbles(chart))], Some(language), None, "");
    if scrobbles.None? then
      Err(Helpers.ArgumentCountMessage(Helpers.Template(catalogs, "post.scrobbles", language), [Helpers.IArg(TotalScrobbles(chart))]))
    else
      Ok(PostText(Helpers.Translate(catalogs, "post.top_artists", [], Some(language), None, "").value,
                  Text.Join(" ", ArtistParts(chart)),
                  scrobbles.value,
                  Helpers.Translate(catalogs, "post.via", [], Some(language), None, "").value,
                  Mention(protocol)))
  }

  /**
   * The post text fails exactly when the scrobble-count translation asks
   * for more than its one argument; the error names the counts.
   */
  lemma PostTextFailsExactly(protocol: string, chart: seq<LastFmService.Artist>,
                             catalogs: map<string, Helpers.Catalog>, language: string)
    requires "en" in catalogs
    ensures var template := Helpers.Template(catalogs, "post.scrobbles", language);
            && (ExpectedPostText(protocol, chart, catalogs, language).Err? <==> Helpers.Conversions(template) > 1)
            && (ExpectedPostText(protocol, chart, catalogs, language).Err? ==>
                  ExpectedPostText(protocol, chart, catalogs, language).error
                  == Text.IntToString(Helpers.Conversions(template) + 1) + " arguments are required, " + Text.IntToString(2) + " given")
  {
    var template := Helpers.Template(catalogs, "post.scrobbles", language);
    Helpers.SprintfFailsExactly(template, [Helpers.IArg(TotalScrobbles(chart))]);
  }

  /**
   * buildPostText: the chart of at most five artists is fetched (its
   * exception passes through), then the items and the total are gathered in
   * chart order.
   */
  method BuildPostText(protocol: string, chartData: Result<Json.Value>,
                       catalogs: map<string, Helpers.Catalog>, language: string) returns (text: Result<string>)
    requires "en" in catalogs
    ensures chartData.Err? ==> text == Err(chartData.error)
    ensures chartData.Ok? ==> text == ExpectedPostText(protocol, LastFmService.Chart(chartData.value, 5), catalogs, language)
  {
    var chart := LastFmService.GetWeeklyArtistChart(chartData, 5);
    if chart.Err? {
      return Err(chart.error);
    }
    var artistParts, totalScrobbles := GatherItems(chart.value);
    var scrobblesText := Helpers.Translate(catalogs, "post.scrobbles", [Helpers.IArg(totalScrobbles)], Some(language), None, "");
    if scrobblesText.None? {
      return Err(Helpers.ArgumentCountMessage(Helpers.Template(catalogs, "post.scrobbles", language), [Helpers.IArg(totalScrobbles)]));
    }
    text := Ok(PostText(Helpers.Translate(catalogs, "post.top_artists", [], Some(language), None, "").value,
                        Text.Join(" ", artistParts),
                        scrobblesText.value,
                        Helpers.Translate(catalogs, "post.via", [], Some(language), None, "").value,
                        Mention(protocol)));
  }

  /** The loop of buildPostText: one item per artist, in chart order, and the sum of the play counts. */
  method GatherItems(artists: seq<LastFmService.Artist>) returns (artistParts: seq<string>, totalScrobbles: int)
    ensures artistParts == ArtistParts(artists) && totalScrobbles == TotalScrobbles(artists)
  {
    artistParts := [];
    totalScrobbles := 0;
    for i := 0 to |artists|
      invariant artistParts == ArtistParts(artists[..i])
      invariant totalScrobbles == TotalScrobbles(artists[..i])
    {
      assert artists[..i + 1] == artists[..i] + [artists[i]];
      ArtistPartsSnoc(artists[..i], artists[i]);
      artistParts := artistParts + [ArtistPart(artists[i])];
      totalScrobbles := totalScrobbles + artists[i].playcount;
    }
    assert artists[..|artists|] == artists;
  }

  // ---------------------------------------------------------------- threads

  /** The arguments of one createPost call: the text, the embed, and the reply's root and parent. */
  datatype BskyPost = BskyPost(text: string, embed: Option<Json.Value>,
                               root: Option<BlueskyClient.StrongRef>, parent: Option<BlueskyClient.StrongRef>)

  /**
   * The createPost calls of a Bluesky thread from chunk `i` on, with the
   * root and parent so far, and the message of the call that fails, if one
   * does.
   */
  function BskyRun(threads: seq<string>, i: nat, embed: Json.Value, root: Option<BlueskyClient.StrongRef>,
                   parent: Option<BlueskyClient.StrongRef>, send: BskyPost -> Result<BlueskyClient.StrongRef>)
    : (run: (seq<BskyPost>, Option<string>))
    requires i <= |threads|
    decreases |threads| - i
  {
    if i == |threads| then ([], None)
    else
      var post := BskyPost(threads[i], if i == 0 then Some(embed) else None, root, parent);
      var result := send(post);
      if result.Err? then ([post], Some(result.error))
      else
        var rest := BskyRun(threads, i + 1, embed, if root.None? then Some(result.value) else root, Some(result.value), send);
        ([post] + rest.0, rest.1)
  }

  /** Every call in `posts` succeeds. */
  ghost predicate AllSent<P, R>(posts: seq<P>, send: P -> Result<R>) {
    forall k :: 0 <= k < |posts| ==> send(posts[k]).Ok?
  }

  /** A successful call in front changes neither whether all succeed nor which call is last. */
  lemma SentInFront<P, R>(post: P, rest: seq<P>, send: P -> Result<R>)
    requires send(post).Ok?
    ensures AllSent([post] + rest, send) <==> AllSent(rest, send)
    ensures rest != [] ==> ([post] + rest)[|rest|] == rest[|rest| - 1]
    ensures rest != [] ==> (AllSent(([post] + rest)[..|rest|], send) <==> AllSent(rest[..|rest| - 1], send))
  {
    if rest != [] {
      assert ([post] + rest)[..|rest|] == [post] + rest[..|rest| - 1];
      SentInFrontPrefix(post, rest[..|rest| - 1], send);
    }
    SentInFrontPrefix(post, rest, send);
  }

  lemma SentInFrontPrefix<P, R>(post: P, rest: seq<P>, send: P -> Result<R>)
    requires send(post).Ok?
    ensures AllSent([post] + rest, send) <==> AllSent(rest, send)
  {
    if AllSent(rest, send) {
      forall k | 0 <= k < |[post] + rest| ensures send(([post] + rest)[k]).Ok? {
        if k > 0 {
          assert ([post] + rest)[k] == rest[k - 1];
        }
      }
    }
    if AllSent([post] + rest, send) {
      forall k | 0 <= k < |rest| ensures send(rest[k]).Ok? {
        assert ([post] + rest)[k + 1] == rest[k];
      }
    }
  }

  /**
   * What a Bluesky run from chunk `i` did: it posted the chunks in order, and
   * it failed exactly when one of its calls failed, the last call made being
   * that one; otherwise it posted every chunk.
   */
  ghost predicate BskyRunShape(threads: seq<string>, i: nat, run: (seq<BskyPost>, Option<string>),
                               send: BskyPost -> Result<BlueskyClient.StrongRef>)
  {
    && i <= |threads| && |run.0| <= |threads| - i
    && (forall k :: 0 <= k < |run.0| ==> run.0[k].text == threads[i + k])
    && (run.0 != [] ==> AllSent(run.0[..|run.0| - 1], send))
    && (run.1.None? <==> |run.0| == |threads| - i && AllSent(run.0, send))
    && (run.1.Some? ==> run.0 != [] && send(run.0[|run.0| - 1]) == Err(run.1.value))
  }

  /** Every Bluesky run has that shape. */
  lemma {:induction false} BskyRunFails(threads: seq<string>, i: nat, embed: Json.Value,
                                        root: Option<BlueskyClient.StrongRef>, parent: Option<BlueskyClient.StrongRef>,
                                        send: BskyPost -> Result<BlueskyClient.StrongRef>)
    requires i <= |threads|
    ensures BskyRunShape(threads, i, BskyRun(threads, i, embed, root, parent, send), send)
    decreases |threads| - i
  {
    if i < |threads| {
      var post := BskyPost(threads[i], if i == 0 then Some(embed) else None, root, parent);
      var result := send(post);
      if result.Ok? {
        var root' := if root.None? then Some(result.value) else root;
        var rest := BskyRun(threads, i + 1, embed, root', Some(result.value), send);
        assert BskyRun(threads, i, embed, root, parent, send) == ([post] + rest.0, rest.1);
        BskyRunFails(threads, i + 1, embed, root', Some(result.value), send);
        BskyShapeCons(threads, i, post, rest, send);
      } else {
        assert BskyRun(threads, i, embed, root, parent, send) == ([post], Some(result.error));
        assert !AllSent([post], send) by { assert [post][0] == post; }
      }
    }
  }

  /** A successful call in front of a run from the next chunk is a run from this one. */
  lemma BskyShapeCons(threads: seq<string>, i: nat, post: BskyPost, rest: (seq<BskyPost>, Option<string>),
                      send: BskyPost -> Result<BlueskyClient.StrongRef>)
    requires i < |threads| && post.text == threads[i] && send(post).Ok?
    requires BskyRunShape(threads, i + 1, rest, send)
    ensures BskyRunShape(threads, i, ([post] + rest.0, rest.1), send)
  {
    SentInFront(post, rest.0, send);
    forall k | 0 < k < 1 + |rest.0| ensures ([post] + rest.0)[k].text == threads[i + k] {
      assert ([post] + rest.0)[k] == rest.0[k - 1];
    }
  }

  /**
   * How a Bluesky run threads its posts: the first carries the image only
   * when it is chunk 0; every later one carries none, has the thread's root
   * (the first post of the thread) as root and the post before it as parent.
   */
  ghost predicate BskyThreaded(threads: seq<string>, i: nat, embed: Json.Value, root: Option<BlueskyClient.StrongRef>,
                               parent: Option<BlueskyClient.StrongRef>, posts: seq<BskyPost>,
                               send: BskyPost -> Result<BlueskyClient.StrongRef>)
    requires i < |threads|
  {
    && (posts != [] ==> posts[0] == BskyPost(threads[i], if i == 0 then Some(embed) else None, root, parent))
    && (forall k :: 0 < k < |posts| ==>
          && posts[k].embed.None?
          && posts[k].root == (if root.Some? then root else RefOf(send(posts[0])))
          && posts[k].parent == RefOf(send(posts[k - 1])))
  }

  /** The reference a successful createPost returns. */
  function RefOf(r: Result<BlueskyClient.StrongRef>): Option<BlueskyClient.StrongRef> {
    if r.Ok? then Some(r.value) else None
  }

  lemma {:induction false} BskyRunThreading(threads: seq<string>, i: nat, embed: Json.Value,
                                            root: Option<BlueskyClient.StrongRef>, parent: Option<BlueskyClient.StrongRef>,
                                            send: BskyPost -> Result<BlueskyClient.StrongRef>)
    requires i <= |threads|
    ensures i < |threads| ==> BskyThreaded(threads, i, embed, root, parent, BskyRun(threads, i, embed, root, parent, send).0, send)
    decreases |threads| - i
  {
    if i < |threads| {
      var post := BskyPost(threads[i], if i == 0 then Some(embed) else None, root, parent);
      var result := send(post);
      if result.Ok? {
        var root' := if root.None? then Some(result.value) else root;
        var rest := BskyRun(threads, i + 1, embed, root', Some(result.value), send);
        assert BskyRun(threads, i, embed, root, parent, send) == ([post] + rest.0, rest.1);
        BskyRunThreading(threads, i + 1, embed, root', Some(result.value), send);
        BskyThreadCons(threads, i, embed, root, parent, post, rest.0, send);
      } else {
        assert BskyRun(threads, i, embed, root, parent, send) == ([post], Some(result.error));
      }
    }
  }

  /** A successful first post, then a run threaded under it, is threaded. */
  lemma BskyThreadCons(threads: seq<string>, i: nat, embed: Json.Value, root: Option<BlueskyClient.StrongRef>,
                       parent: Option<BlueskyClient.StrongRef>, post: BskyPost, rest: seq<BskyPost>,
                       send: BskyPost -> Result<BlueskyClient.StrongRef>)
    requires i < |threads| && post == BskyPost(threads[i], if i == 0 then Some(embed) else None, root, parent)
    requires send(post).Ok?
    requires var root' := if root.None? then Some(send(post).value) else root;
             i + 1 < |threads| ==> BskyThreaded(threads, i + 1, embed, root', Some(send(post).value), rest, send)
    requires i + 1 == |threads| ==> rest == []
    ensures BskyThreaded(threads, i, embed, root, parent, [post] + rest, send)
  {
    var p := [post] + rest;
    forall k | 0 < k < |p|
      ensures p[k].embed.None? && p[k].root == (if root.Some? then root else RefOf(send(p[0])))
              && p[k].parent == RefOf(send(p[k - 1]))
    {
      assert p[k] == rest[k - 1];
      if k > 1 {
        assert p[k - 1] == rest[k - 2];
      }
    }
  }

  /**
   * The Bluesky thread: the first chunk carries the image and no reply;
   * every later chunk replies with the first post as root and the previous
   * post as parent. The first failing call ends the thread with its message.
   */
  method PostBlueskyThread(threads: seq<string>, embed: Json.Value,
                           createPost: BskyPost -> Result<BlueskyClient.StrongRef>)
    returns (posts: seq<BskyPost>, failure: Option<string>)
    ensures (posts, failure) == BskyRun(threads, 0, embed, None, None, createPost)
    ensures BskyRunShape(threads, 0, (posts, failure), createPost)
    ensures threads != [] ==> BskyThreaded(threads, 0, embed, None, None, posts, createPost)
  {
    posts := [];
    failure := None;
    var root: Option<BlueskyClient.StrongRef> := None;
    var parent: Option<BlueskyClient.StrongRef> := None;
    var i := 0;
    assert [] + BskyRun(threads, 0, embed, None, None, createPost).0 == BskyRun(threads, 0, embed, None, None, createPost).0;
    while i < |threads|
      invariant 0 <= i <= |threads|
      invariant var run := BskyRun(threads, i, embed, root, parent, createPost);
                BskyRun(threads, 0, embed, None, None, createPost) == (posts + run.0, run.1)
    {
      BskyRunStep(threads, i, embed, root, parent, createPost, posts);
      var post := BskyPost(threads[i], if i == 0 then Some(embed) else None, root, parent);
      posts := posts + [post];
      var result := createPost(post);
      if result.Err? {
        failure := Some(result.error);
        break;
      }
      root := if root.None? then Some(result.value) else root;
      parent := Some(result.value);
      i := i + 1;
    }
    assert posts + [] == posts;
    BskyRunFails(threads, 0, embed, None, None, createPost);
    BskyRunThreading(threads, 0, embed, None, None, createPost);
  }

  /** One turn of the Bluesky loop: the call made, then either its failure or the run from the next chunk. */
  lemma BskyRunStep(threads: seq<string>, i: nat, embed: Json.Value, root: Option<BlueskyClient.StrongRef>,
                    parent: Option<BlueskyClient.StrongRef>, send: BskyPost -> Result<BlueskyClient.StrongRef>,
                    posts: seq<BskyPost>)
    requires i < |threads|
    ensures var post := BskyPost(threads[i], if i == 0 then Some(embed) else None, root, parent);
            var run := BskyRun(threads, i, embed, root, parent, send);
            && (send(post).Err? ==> (posts + run.0, run.1) == (posts + [post], Some(send(post).error)))
            && (send(post).Ok? ==>
                  var rest := BskyRun(threads, i + 1, embed, if root.None? then Some(send(post).value) else root,
                                      Some(send(post).value), send);
                  (posts + run.0, run.1) == ((posts + [post]) + rest.0, rest.1))
  {
    var post := BskyPost(threads[i], if i == 0 then Some(embed) else None, root, parent);
    if send(post).Ok? {
      var rest := BskyRun(threads, i + 1, embed, if root.None? then Some(send(post).value) else root,
                          Some(send(post).value), send);
      Associate(posts, [post], rest.0);
    }
  }

  /** The arguments of one postStatus call: the text, the media id and the status replied to. */
  datatype Toot = Toot(text: string, mediaId: Option<string>, inReplyToId: Option<string>)

  /** (string) ($status['id'] ?? null). */
  function StatusId(status: Json.Value): string {
    Json.ToStr(Json.At(status, "id"))
  }

  /**
   * The postStatus calls of a Mastodon thread from chunk `i` on, replying
   * to `inReplyTo`, and the message of the call that fails, if one does.
   */
  function TootRun(threads: seq<string>, i: nat, mediaId: string, inReplyTo: Option<string>,
                   send: Toot -> Result<Json.Value>)
    : (run: (seq<Toot>, Option<string>))
    requires i <= |threads|
    decreases |threads| - i
  {
    if i == |threads| then ([], None)
    else
      var post := Toot(threads[i], if i == 0 then Some(mediaId) else None, inReplyTo);
      var status := send(post);
      if status.Err? then ([post], Some(status.error))
      else
        var rest := TootRun(threads, i + 1, mediaId, Some(StatusId(status.value)), send);
        ([post] + rest.0, rest.1)
  }

  /**
   * What a Mastodon run from chunk `i` did: it posted the chunks in order,
   * and it failed exactly when one of its calls failed, the last call made
   * being that one; otherwise it posted every chunk.
   */
  ghost predicate TootRunShape(threads: seq<string>, i: nat, run: (seq<Toot>, Option<string>),
                               send: Toot -> Result<Json.Value>)
  {
    && i <= |threads| && |run.0| <= |threads| - i
    && (forall k :: 0 <= k < |run.0| ==> run.0[k].text == threads[i + k])
    && (run.0 != [] ==> AllSent(run.0[..|run.0| - 1], send))
    && (run.1.None? <==> |run.0| == |threads| - i && AllSent(run.0, send))
    && (run.1.Some? ==> run.0 != [] && send(run.0[|run.0| - 1]) == Err(run.1.value))
  }

  /** Every Mastodon run has that shape. */
  lemma {:induction false} TootRunFails(threads: seq<string>, i: nat, mediaId: string, inReplyTo: Option<string>,
                                        send: Toot -> Result<Json.Value>)
    requires i <= |threads|
    ensures TootRunShape(threads, i, TootRun(threads, i, mediaId, inReplyTo, send), send)
    decreases |threads| - i
  {
    if i < |threads| {
      var post := Toot(threads[i], if i == 0 then Some(mediaId) else None, inReplyTo);
      var status := send(post);
      if status.Ok? {
        var rest := TootRun(threads, i + 1, mediaId, Some(StatusId(status.value)), send);
        assert TootRun(threads, i, mediaId, inReplyTo, send) == ([post] + rest.0, rest.1);
        TootRunFails(threads, i + 1, mediaId, Some(StatusId(status.value)), send);
        TootShapeCons(threads, i, post, rest, send);
      } else {
        assert TootRun(threads, i, mediaId, inReplyTo, send) == ([post], Some(status.error));
        assert !AllSent([post], send) by { assert [post][0] == post; }
      }
    }
  }

  /** A successful call in front of a run from the next chunk is a run from this one. */
  lemma TootShapeCons(threads: seq<string>, i: nat, post: Toot, rest: (seq<Toot>, Option<string>),
                      send: Toot -> Result<Json.Value>)
    requires i < |threads| && post.text == threads[i] && send(post).Ok?
    requires TootRunShape(threads, i + 1, rest, send)
    ensures TootRunShape(threads, i, ([post] + rest.0, rest.1), send)
  {
    SentInFront(post, rest.0, send);
    forall k | 0 < k < 1 + |rest.0| ensures ([post] + rest.0)[k].text == threads[i + k] {
      assert ([post] + rest.0)[k] == rest.0[k - 1];
    }
  }

  /** The id a successful postStatus returns. */
  function IdOf(r: Result<Json.Value>): Option<string> {
    if r.Ok? then Some(StatusId(r.value)) else None
  }

  /**
   * How a Mastodon run threads its statuses: the first carries the media id
   * only when it is chunk 0; every later one carries none and replies to
   * the status before it.
   */
  ghost predicate TootThreaded(threads: seq<string>, i: nat, mediaId: string, inReplyTo: Option<string>,
                               posts: seq<Toot>, send: Toot -> Result<Json.Value>)
    requires i < |threads|
  {
    && (posts != [] ==> posts[0] == Toot(threads[i], if i == 0 then Some(mediaId) else None, inReplyTo))
    && (forall k :: 0 < k < |posts| ==> posts[k].mediaId.None? && posts[k].inReplyToId == IdOf(send(posts[k - 1])))
  }

  lemma {:induction false} TootRunThreading(threads: seq<string>, i: nat, mediaId: string, inReplyTo: Option<string>,
                                            send: Toot -> Result<Json.Value>)
    requires i <= |threads|
    ensures i < |threads| ==> TootThreaded(threads, i, mediaId, inReplyTo, TootRun(threads, i, mediaId, inReplyTo, send).0, send)
    decreases |threads| - i
  {
    if i < |threads| {
      var post := Toot(threads[i], if i == 0 then Some(mediaId) else None, inReplyTo);
      var status := send(post);
      if status.Ok? {
        var rest := TootRun(threads, i + 1, mediaId, Some(StatusId(status.value)), send);
        assert TootRun(threads, i, mediaId, inReplyTo, send) == ([post] + rest.0, rest.1);
        TootRunThreading(threads, i + 1, mediaId, Some(StatusId(status.value)), send);
        TootThreadCons(threads, i, mediaId, inReplyTo, post, rest.0, send);
      } else {
        assert TootRun(threads, i, mediaId, inReplyTo, send) == ([post], Some(status.error));
      }
    }
  }

  /** A successful first status, then a run replying to it, is threaded. */
  lemma TootThreadCons(threads: seq<string>, i: nat, mediaId: string, inReplyTo: Option<string>, post: Toot,
                       rest: seq<Toot>, send: Toot -> Result<Json.Value>)
    requires i < |threads| && post == Toot(threads[i], if i == 0 then Some(mediaId) else None, inReplyTo)
    requires send(post).Ok?
    requires i + 1 < |threads| ==> TootThreaded(threads, i + 1, mediaId, Some(StatusId(send(post).value)), rest, send)
    requires i + 1 == |threads| ==> rest == []
    ensures TootThreaded(threads, i, mediaId, inReplyTo, [post] + rest, send)
  {
    var p := [post] + rest;
    forall k | 0 < k < |p| ensures p[k].mediaId.None? && p[k].inReplyToId == IdOf(send(p[k - 1])) {
      assert p[k] == rest[k - 1];
      if k > 1 {
        assert p[k - 1] == rest[k - 2];
      }
    }
  }

  /**
   * The Mastodon thread: the media id goes with the first chunk only, and
   * every later chunk replies to the status posted just before it. The
   * first failing call ends the thread with its message.
   */
  method PostMastodonThread(threads: seq<string>, mediaId: string, postStatus: Toot -> Result<Json.Value>)
    returns (posts: seq<Toot>, failure: Option<string>)
    ensures (posts, failure) == TootRun(threads, 0, mediaId, None, postStatus)
    ensures TootRunShape(threads, 0, (posts, failure), postStatus)
    ensures threads != [] ==> TootThreaded(threads, 0, mediaId, None, posts, postStatus)
  {
    posts := [];
    failure := None;
    var inReplyTo: Option<string> := None;
    var i := 0;
    assert [] + TootRun(threads, 0, mediaId, None, postStatus).0 == TootRun(threads, 0, mediaId, None, postStatus).0;
    while i < |threads|
      invariant 0 <= i <= |threads|
      invariant var run := TootRun(threads, i, mediaId, inReplyTo, postStatus);
                TootRun(threads, 0, mediaId, None, postStatus) == (posts + run.0, run.1)
    {
      TootRunStep(threads, i, mediaId, inReplyTo, postStatus, posts);
      var post := Toot(threads[i], if i == 0 then Some(mediaId) else None, inReplyTo);
      posts := posts + [post];
      var status := postStatus(post);
      if status.Err? {
        failure := Some(status.error);
        break;
      }
      inReplyTo := Some(StatusId(status.value));
      i := i + 1;
    }
    assert posts + [] == posts;
    assert (posts, failure) == TootRun(threads, 0, mediaId, None, postStatus);
    TootRunFails(threads, 0, mediaId, None, postStatus);
    TootRunThreading(threads, 0, mediaId, None, postStatus);
  }

  /** One turn of the Mastodon loop: the call made, then either its failure or the run from the next chunk. */
  lemma TootRunStep(threads: seq<string>, i: nat, mediaId: string, inReplyTo: Option<string>,
                    send: Toot -> Result<Json.Value>, posts: seq<Toot>)
    requires i < |threads|
    ensures var post := Toot(threads[i], if i == 0 then Some(mediaId) else None, inReplyTo);
            var run := TootRun(threads, i, mediaId, inReplyTo, send);
            && (send(post).Err? ==> (posts + run.0, run.1) == (posts + [post], Some(send(post).error)))
            && (send(post).Ok? ==>
                  var rest := TootRun(threads, i + 1, mediaId, Some(StatusId(send(post).value)), send);
                  (posts + run.0, run.1) == ((posts + [post]) + rest.0, rest.1))
  {
    var post := Toot(threads[i], if i == 0 then Some(mediaId) else None, inReplyTo);
    if send(post).Ok? {
      Associate(posts, [post], TootRun(threads, i + 1, mediaId, Some(StatusId(send(post).value)), send).0);
    }
  }

  // ---------------------------------------------------------------- sendForUser

  /**
   * The services sendForUser calls, each as its result for the arguments it
   * is given; an Err is the message of the exception it throws.
   */
  datatype Outside = Outside(
    chartData: string -> Result<Json.Value>,                 // the Last.fm weekly chart reply for a Last.fm user name
    catalogs: map<string, Helpers.Catalog>,                  // the language files
    montageFilePath: string -> Option<string>,               // montageUrlToFilePath
    isFile: string -> bool,                                  // is_file
    decrypt: string -> Result<string>,                       // CryptoService::decrypt
    createSession: (string, string, string) -> Result<BlueskyClient.Session>,
    uploadImage: (string, string, string) -> Result<BlueskyClient.Upload>,
    createPost: (string, string, string, BskyPost) -> Result<BlueskyClient.StrongRef>,
    uploadMedia: (string, string, string) -> Result<string>,
    postStatus: (string, string, Toot) -> Result<Json.Value>)

  /** The post buildPostText writes for a user, or the exception it lets through. */
  function PostTextFor(user: UserRepository.User, out: Outside): Result<string>
    requires "en" in out.catalogs
  {
    var data := out.chartData(user.lastfmUsername.GetOr(""));
    if data.Err? then Err(data.error)
    else ExpectedPostText(user.protocol, LastFmService.Chart(data.value, 5), out.catalogs, user.language)
  }

  /** The file behind the user's montage URL, when it is known and is a file. */
  predicate MontageReady(user: UserRepository.User, out: Outside) {
    var path := out.montageFilePath(user.socialMontage.GetOr(""));
    path.Some? && out.isFile(path.value)
  }

  /** Bluesky before the first post: decrypt the app password, open a session, upload the montage. */
  function BlueskySetup(user: UserRepository.User, out: Outside, path: string)
    : (r: Result<(BlueskyClient.Session, BlueskyClient.Upload)>)
  {
    var password := out.decrypt(user.password.GetOr(""));
    if password.Err? then Err(password.error)
    else
      var session := out.createSession(user.instance, user.username, password.value);
      if session.Err? then Err(session.error)
      else
        var upload := out.uploadImage(user.instance, session.value.accessJwt, path);
        if upload.Err? then Err(upload.error) else Ok((session.value, upload.value))
  }

  /** How Bluesky posts are sent for this user once the session is open. */
  function BlueskyPoster(user: UserRepository.User, out: Outside, session: BlueskyClient.Session)
    : BskyPost -> Result<BlueskyClient.StrongRef>
  {
    p => out.createPost(user.instance, session.did, session.accessJwt, p)
  }

  /** Mastodon before the first status: decrypt the token, upload the montage. */
  function MastodonSetup(user: UserRepository.User, out: Outside, path: string): (r: Result<(string, string)>)
  {
    var token := out.decrypt(user.token.GetOr(""));
    if token.Err? then Err(token.error)
    else
      var mediaId := out.uploadMedia(user.instance, token.value, path);
      if mediaId.Err? then Err(mediaId.error) else Ok((token.value, mediaId.value))
  }

  /** How Mastodon statuses are sent for this user with the decrypted token. */
  function MastodonPoster(user: UserRepository.User, out: Outside, token: string): Toot -> Result<Json.Value> {
    t => out.postStatus(user.instance, token, t)
  }

  /** The image embed of the first post: the uploaded blob with its size and the alt text "Weekly chart". */
  function ChartEmbed(upload: BlueskyClient.Upload): Json.Value {
    BlueskyClient.MakeImageEmbed(upload.blob, "Weekly chart", upload.width, upload.height)
  }

  /** The Bluesky branch of sendForUser: the failure that ends it, if any, and the posts sent. */
  method SendBluesky(user: UserRepository.User, out: Outside, path: string, threads: seq<string>)
    returns (failure: Option<string>, posts: seq<BskyPost>)
    ensures BlueskySetup(user, out, path).Err? ==> failure == Some(BlueskySetup(user, out, path).error) && posts == []
    ensures BlueskySetup(user, out, path).Ok? ==>
              var (session, upload) := BlueskySetup(user, out, path).value;
              var send := BlueskyPoster(user, out, session);
              && (posts, failure) == BskyRun(threads, 0, ChartEmbed(upload), None, None, send)
              && BskyRunShape(threads, 0, (posts, failure), send)
              && (threads != [] ==> BskyThreaded(threads, 0, ChartEmbed(upload), None, None, posts, send))
  {
    var setup := BlueskySetup(user, out, path);
    if setup.Err? {
      return Some(setup.error), [];
    }
    var (session, upload) := setup.value;
    posts, failure := PostBlueskyThread(threads, ChartEmbed(upload), BlueskyPoster(user, out, session));
  }

  /** The Mastodon branch of sendForUser: the failure that ends it, if any, and the statuses sent. */
  method SendMastodon(user: UserRepository.User, out: Outside, path: string, threads: seq<string>)
    returns (failure: Option<string>, posts: seq<Toot>)
    ensures MastodonSetup(user, out, path).Err? ==> failure == Some(MastodonSetup(user, out, path).error) && posts == []
    ensures MastodonSetup(user, out, path).Ok? ==>
              var (token, mediaId) := MastodonSetup(user, out, path).value;
              var send := MastodonPoster(user, out, token);
              && (posts, failure) == TootRun(threads, 0, mediaId, None, send)
              && TootRunShape(threads, 0, (posts, failure), send)
              && (threads != [] ==> TootThreaded(threads, 0, mediaId, None, posts, send))
  {
    var setup := MastodonSetup(user, out, path);
    if setup.Err? {
      return Some(setup.error), [];
    }
    var (token, mediaId) := setup.value;
    posts, failure := PostMastodonThread(threads, mediaId, MastodonPoster(user, out, token));
  }

  /** What the try block of sendForUser does: its outcome, the chunks it posts and the calls it makes. */
  datatype Delivery = Delivery(outcome: Result<string>, threads: seq<string>, bsky: seq<BskyPost>, toots: seq<Toot>)

  /**
   * The delivery for a user: the post text (or its exception), the montage
   * file (or "Montage file not found"), then the setup and the thread on
   * the user's network (or "Unknown protocol"). The outcome is the text when
   * every call succeeds, else the message of the first that fails.
   */
  function Delivered(user: UserRepository.User, out: Outside): Delivery
    requires "en" in out.catalogs
  {
    var text := PostTextFor(user, out);
    if text.Err? then Delivery(Err(text.error), [], [], [])
    else
      var threads := Threads(text.value, user.protocol);
      if !MontageReady(user, out) then Delivery(Err("Montage file not found"), threads, [], [])
      else
        var path := out.montageFilePath(user.socialMontage.GetOr("")).value;
        if user.protocol == "at" then
          var setup := BlueskySetup(user, out, path);
          if setup.Err? then Delivery(Err(setup.error), threads, [], [])
          else
            var run := BskyRun(threads, 0, ChartEmbed(setup.value.1), None, None, BlueskyPoster(user, out, setup.value.0));
            Delivery(if run.1.Some? then Err(run.1.value) else Ok(text.value), threads, run.0, [])
        else if user.protocol == "mastodon" then
          var setup := MastodonSetup(user, out, path);
          if setup.Err? then Delivery(Err(setup.error), threads, [], [])
          else
            var run := TootRun(threads, 0, setup.value.1, None, MastodonPoster(user, out, setup.value.0));
            Delivery(if run.1.Some? then Err(run.1.value) else Ok(text.value), threads, [], run.0)
        else Delivery(Err("Unknown protocol"), threads, [], [])
  }

  /**
   * A delivery succeeds exactly when the text is built, the montage is a
   * file, the protocol is "at" or "mastodon", its setup succeeds and every
   * chunk is posted; the outcome is then the text. A failing setup gives
   * its own message, and a failing post the message of that post's call,
   * which is the last call made.
   */
  lemma DeliveredOutcome(user: UserRepository.User, out: Outside)
    requires "en" in out.catalogs
    ensures var d := Delivered(user, out);
            var path := out.montageFilePath(user.socialMontage.GetOr(""));
            d.outcome.Ok? <==>
              && PostTextFor(user, out).Ok? && MontageReady(user, out)
              && ((user.protocol == "at" && BlueskySetup(user, out, path.value).Ok?
                   && |d.bsky| == |d.threads| && AllSent(d.bsky, BlueskyPoster(user, out, BlueskySetup(user, out, path.value).value.0)))
                  || (user.protocol == "mastodon" && MastodonSetup(user, out, path.value).Ok?
                      && |d.toots| == |d.threads| && AllSent(d.toots, MastodonPoster(user, out, MastodonSetup(user, out, path.value).value.0))))
    ensures var d := Delivered(user, out);
            d.outcome.Ok? ==> d.outcome == PostTextFor(user, out)
    ensures var d := Delivered(user, out);
            var path := out.montageFilePath(user.socialMontage.GetOr(""));
            PostTextFor(user, out).Ok? && MontageReady(user, out) && user.protocol == "at" ==>
              && (BlueskySetup(user, out, path.value).Err? ==> d.outcome == Err(BlueskySetup(user, out, path.value).error) && d.bsky == [])
              && (BlueskySetup(user, out, path.value).Ok? && d.outcome.Err? ==>
                    d.bsky != [] && BlueskyPoster(user, out, BlueskySetup(user, out, path.value).value.0)(d.bsky[|d.bsky| - 1]) == Err(d.outcome.error))
    ensures var d := Delivered(user, out);
            var path := out.montageFilePath(user.socialMontage.GetOr(""));
            PostTextFor(user, out).Ok? && MontageReady(user, out) && user.protocol == "mastodon" ==>
              && (MastodonSetup(user, out, path.value).Err? ==> d.outcome == Err(MastodonSetup(user, out, path.value).error) && d.toots == [])
              && (MastodonSetup(user, out, path.value).Ok? && d.outcome.Err? ==>
                    d.toots != [] && MastodonPoster(user, out, MastodonSetup(user, out, path.value).value.0)(d.toots[|d.toots| - 1]) == Err(d.outcome.error))
  {
    var text := PostTextFor(user, out);
    if text.Ok? && MontageReady(user, out) {
      var threads := Threads(text.value, user.protocol);
      var path := out.montageFilePath(user.socialMontage.GetOr("")).value;
      if user.protocol == "at" && BlueskySetup(user, out, path).Ok? {
        var setup := BlueskySetup(user, out, path).value;
        BskyRunFails(threads, 0, ChartEmbed(setup.1), None, None, BlueskyPoster(user, out, setup.0));
      } else if user.protocol == "mastodon" && MastodonSetup(user, out, path).Ok? {
        var setup := MastodonSetup(user, out, path).value;
        TootRunFails(threads, 0, setup.1, None, MastodonPoster(user, out, setup.0));
      }
    }
  }

  /**
   * The try block of sendForUser: build and split the post, find the
   * montage, then publish on the user's network. The outcome is the posted
   * text, or the message of the first exception.
   */
  method Deliver(user: UserRepository.User, out: Outside)
    returns (outcome: Result<string>, threads: seq<string>, bsky: seq<BskyPost>, toots: seq<Toot>)
    requires "en" in out.catalogs
    ensures Delivery(outcome, threads, bsky, toots) == Delivered(user, out)
    ensures PostTextFor(user, out).Err? ==> outcome == PostTextFor(user, out) && bsky == [] && toots == []
    ensures PostTextFor(user, out).Ok? && !MontageReady(user, out) ==>
              outcome == Err("Montage file not found") && bsky == [] && toots == []
    ensures PostTextFor(user, out).Ok? && MontageReady(user, out) && user.protocol != "at" && user.protocol != "mastodon" ==>
              outcome == Err("Unknown protocol") && bsky == [] && toots == []
    ensures PostTextFor(user, out).Ok? ==> threads == Threads(PostTextFor(user, out).value, user.protocol)
    ensures user.protocol != "at" ==> bsky == []
    ensures user.protocol != "mastodon" ==> toots == []
  {
    bsky, toots := [], [];
    var built := BuildPostText(user.protocol, out.chartData(user.lastfmUsername.GetOr("")), out.catalogs, user.language);
    if built.Err? {
      return built, [], bsky, toots;
    }
    var text := built.value;
    threads := SplitTextForProtocol(text, user.protocol);
    var montageFilePath := out.montageFilePath(user.socialMontage.GetOr(""));
    if montageFilePath.None? || !out.isFile(montageFilePath.value) {
      return Err("Montage file not found"), threads, bsky, toots;
    }
    var failure: Option<string>;
    if user.protocol == "at" {
      failure, bsky := SendBluesky(user, out, montageFilePath.value, threads);
    } else if user.protocol == "mastodon" {
      failure, toots := SendMastodon(user, out, montageFilePath.value, threads);
    } else {
      return Err("Unknown protocol"), threads, bsky, toots;
    }
    outcome := if failure.Some? then Err(failure.value) else Ok(text);
  }

  // ---------------------------------------------------------------- outcome in the users table

  /** MAX_ERROR_COUNT read with (int), 3 when it is not set. */
  function MaxErrors(setting: Option<string>): int {
    if setting.Some? then Text.IntVal(setting.value) else 3
  }

  /** The callback written after a successful send. */
  const SentCallback := "Sent successfully"

  /**
   * The row sendForUser leaves behind, from the row stored before it ran and
   * the row it was handed (whose montage the retry path writes back).
   * Success: SCHEDULE with the posted text and no errors. Failure: one more
   * error, then SCHEDULE with a give-up note once the count reaches
   * `maxErrors`, else QUEUED again.
   */
  function AfterSend(row: UserRepository.User, given: UserRepository.User, outcome: Result<string>,
                     maxErrors: int, now: string): UserRepository.User
  {
    if outcome.Ok? then
      row.(status := UserRepository.Schedule, socialMessage := Some(outcome.value), errorCount := 0,
           callback := Some(SentCallback), updatedAt := now)
    else
      var count := row.errorCount + 1;
      var failed := row.(errorCount := count, status := UserRepository.Queued, callback := Some(outcome.error), updatedAt := now);
      if count >= maxErrors then
        failed.(status := UserRepository.Schedule, callback := Some(UserRepository.GiveUpPrefix + outcome.error))
      else failed.(status := UserRepository.Queued, socialMontage := Some(given.socialMontage.GetOr("")))
  }

  /**
   * What AfterSend changes: success resets the error count and records the
   * text; failure adds one error and gives up exactly when the count reaches
   * `maxErrors`. The account, the schedule and the language never change.
   */
  lemma AfterSendEffects(row: UserRepository.User, given: UserRepository.User, outcome: Result<string>,
                         maxErrors: int, now: string)
    ensures var r := AfterSend(row, given, outcome, maxErrors, now);
            && r.id == row.id && UserRepository.AccountKey(r) == UserRepository.AccountKey(row)
            && r.lastfmUsername == row.lastfmUsername && r.dayOfWeek == row.dayOfWeek && r.time == row.time
            && r.timezone == row.timezone && r.language == row.language
            && r.updatedAt == now
    ensures var r := AfterSend(row, given, outcome, maxErrors, now);
            outcome.Ok? ==>
              && r.errorCount == 0 && r.status == UserRepository.Schedule
              && r.socialMessage == Some(outcome.value) && r.callback == Some(SentCallback)
              && r.socialMontage == row.socialMontage
    ensures var r := AfterSend(row, given, outcome, maxErrors, now);
            outcome.Err? ==>
              && r.errorCount == row.errorCount + 1 && r.socialMessage == row.socialMessage
              && (r.status == UserRepository.Schedule <==> row.errorCount + 1 >= maxErrors)
              && (r.status == UserRepository.Schedule || r.status == UserRepository.Queued)
    ensures var r := AfterSend(row, given, outcome, maxErrors, now);
            outcome.Err? && row.errorCount + 1 >= maxErrors ==>
              r.callback == Some(UserRepository.GiveUpPrefix + outcome.error) && r.socialMontage == row.socialMontage
    ensures var r := AfterSend(row, given, outcome, maxErrors, now);
            outcome.Err? && row.errorCount + 1 < maxErrors ==>
              r.callback == Some(outcome.error) && r.socialMontage == Some(given.socialMontage.GetOr(""))
  {
  }

  /**
   * sendForUser: SENDING is written first (`sending` is the table at that
   * point), then the delivery runs and its outcome is recorded as AfterSend
   * describes. Only the user's own row changes; a user without a row
   * changes nothing.
   */
  method SendForUser(users: UserRepository.UserStore, user: UserRepository.User, out: Outside,
                     maxErrors: int, now: string)
    returns (sent: bool, outcome: Result<string>, ghost sending: map<int, UserRepository.User>)
    requires users.Valid() && "en" in out.catalogs
    modifies users
    ensures users.Valid() && users.nextId == old(users.nextId)
    ensures sent <==> outcome.Ok?
    ensures outcome == Delivered(user, out).outcome
    ensures PostTextFor(user, out).Err? ==> outcome == PostTextFor(user, out)
    ensures outcome.Ok? ==> outcome == PostTextFor(user, out)
    ensures user.id in old(users.rows) ==>
              sending == old(users.rows)[user.id := old(users.rows)[user.id].(status := UserRepository.Sending, updatedAt := now)]
              && users.rows == old(users.rows)[user.id := AfterSend(old(users.rows)[user.id], user, outcome, maxErrors, now)]
    ensures user.id !in old(users.rows) ==> users.rows == old(users.rows)
  {
    var userId := user.id;
    users.MarkSending(userId, now);
    sending := users.rows;
    var threads, bsky, toots;
    outcome, threads, bsky, toots := Deliver(user, out);
    DeliveredOutcome(user, out);
    RecordOutcome(users, user, outcome, maxErrors, now);
    sent := outcome.Ok?;
    if userId in old(users.rows) {
      SendingIsOverwritten(old(users.rows)[userId], user, outcome, maxErrors, now);
    }
  }

  /** The writes after the delivery: those of the success path, or those of the catch block. */
  method RecordOutcome(users: UserRepository.UserStore, user: UserRepository.User, outcome: Result<string>,
                       maxErrors: int, now: string)
    requires users.Valid()
    modifies users
    ensures users.Valid() && users.nextId == old(users.nextId)
    ensures user.id in old(users.rows) ==>
              users.rows == old(users.rows)[user.id := AfterSend(old(users.rows)[user.id], user, outcome, maxErrors, now)]
    ensures user.id !in old(users.rows) ==> users.rows == old(users.rows)
  {
    if outcome.Ok? {
      users.MarkScheduledAfterSend(user.id, outcome.value, now);
      users.SetCallback(user.id, SentCallback, now);
    } else {
      var newCount := users.IncrementError(user.id, outcome.error, true, now);
      if newCount >= maxErrors {
        users.MarkScheduledAfterGiveUp(user.id, outcome.error, now);
      } else {
        users.MarkQueued(user.id, user.socialMontage.GetOr(""), now);
      }
    }
  }

  /** The SENDING mark leaves no trace once the outcome is recorded. */
  lemma SendingIsOverwritten(row: UserRepository.User, given: UserRepository.User, outcome: Result<string>,
                             maxErrors: int, now: string)
    ensures AfterSend(row.(status := UserRepository.Sending, updatedAt := now), given, outcome, maxErrors, now)
            == AfterSend(row, given, outcome, maxErrors, now)
  {
  }

  /**
   * sendForUserId (force mode): a missing user, or one whose status is not
   * QUEUED, gives false without any write; otherwise the stored row is sent.
   */
  method SendForUserId(users: UserRepository.UserStore, userId: int, out: Outside, maxErrors: int, now: string)
    returns (sent: bool, outcome: Option<Result<string>>)
    requires users.Valid() && "en" in out.catalogs
    modifies users
    ensures users.Valid() && users.nextId == old(users.nextId)
    ensures outcome.None? <==> userId !in old(users.rows) || old(users.rows)[userId].status != UserRepository.Queued
    ensures outcome.None? ==> !sent && users.rows == old(users.rows)
    ensures outcome.Some? ==>
              (sent <==> outcome.value.Ok?)
              && outcome.value == Delivered(old(users.rows)[userId], out).outcome
              && users.rows == old(users.rows)[userId := AfterSend(old(users.rows)[userId], old(users.rows)[userId],
                                                                   outcome.value, maxErrors, now)]
  {
    var user := users.FindById(userId);
    if user.None? {
      return false, None;
    }
    if user.value.status != UserRepository.Queued {
      return false, None;
    }
    var result;
    ghost var sending;
    sent, result, sending := SendForUser(users, user.value, out, maxErrors, now);
    outcome := Some(result);
  }

  /**
   * runSend: every QUEUED user, in id order, is sent once; one user's
   * failure does not stop the others. Each queued row ends as AfterSend
   * says and every other row is left as it was.
   */
  method RunSend(users: UserRepository.UserStore, out: Outside, maxErrors: int, now: string)
    returns (queued: seq<UserRepository.User>, outcomes: seq<Result<string>>)
    requires users.Valid() && "en" in out.catalogs
    modifies users
    ensures users.Valid() && users.nextId == old(users.nextId)
    ensures forall u :: u in queued <==> u in old(users.rows).Values && u.status == UserRepository.Queued
    ensures UserRepository.Ascending(queued) && |outcomes| == |queued|
    ensures AllDelivered(queued, outcomes, out)
    ensures users.rows.Keys == old(users.rows).Keys
    ensures forall i :: 0 <= i < |queued| ==>
              queued[i].id in old(users.rows) && old(users.rows)[queued[i].id] == queued[i]
              && users.rows[queued[i].id] == AfterSend(queued[i], queued[i], outcomes[i], maxErrors, now)
    ensures forall id :: id in old(users.rows) && old(users.rows)[id].status != UserRepository.Queued ==>
              users.rows[id] == old(users.rows)[id]
  {
    queued := users.FindQueuedUsers();
    UserRepository.FoundRowsStored(users.rows, queued);
    assert forall j :: 0 <= j < |queued| ==> queued[j].status == UserRepository.Queued by {
      forall j | 0 <= j < |queued| ensures queued[j].status == UserRepository.Queued {
        assert queued[j] in queued;
      }
    }
    outcomes := SendAll(users, out, maxErrors, now, queued);
  }

  /** The loop of runSend: the queued users are sent one after the other, whatever each outcome. */
  method SendAll(users: UserRepository.UserStore, out: Outside, maxErrors: int, now: string,
                 queued: seq<UserRepository.User>)
    returns (outcomes: seq<Result<string>>)
    requires users.Valid() && "en" in out.catalogs
    requires UserRepository.Ascending(queued)
    requires forall j :: 0 <= j < |queued| ==> queued[j].status == UserRepository.Queued
    requires Swept(users.rows, users.rows, queued, [], maxErrors, now)
    modifies users
    ensures users.Valid() && users.nextId == old(users.nextId)
    ensures |outcomes| == |queued| && Swept(old(users.rows), users.rows, queued, outcomes, maxErrors, now)
    ensures AllDelivered(queued, outcomes, out)
  {
    outcomes := [];
    var i := 0;
    while i < |queued|
      invariant 0 <= i <= |queued| && |outcomes| == i
      invariant users.Valid() && users.nextId == old(users.nextId)
      invariant Swept(old(users.rows), users.rows, queued, outcomes, maxErrors, now)
      invariant AllDelivered(queued[..i], outcomes, out)
    {
      var outcome := SendNext(users, out, maxErrors, now, queued, outcomes, old(users.rows));
      outcomes := outcomes + [outcome];
      i := i + 1;
    }
    assert queued[..i] == queued;
  }

  /** One turn of the runSend loop: the next queued user is sent and both loop facts grow by its outcome. */
  method SendNext(users: UserRepository.UserStore, out: Outside, maxErrors: int, now: string,
                  queued: seq<UserRepository.User>, outcomes: seq<Result<string>>,
                  ghost start: map<int, UserRepository.User>)
    returns (outcome: Result<string>)
    requires users.Valid() && "en" in out.catalogs && |outcomes| < |queued|
    requires UserRepository.Ascending(queued)
    requires forall j :: 0 <= j < |queued| ==> queued[j].status == UserRepository.Queued
    requires Swept(start, users.rows, queued, outcomes, maxErrors, now)
    requires AllDelivered(queued[..|outcomes|], outcomes, out)
    modifies users
    ensures users.Valid() && users.nextId == old(users.nextId)
    ensures Swept(start, users.rows, queued, outcomes + [outcome], maxErrors, now)
    ensures AllDelivered(queued[..|outcomes| + 1], outcomes + [outcome], out)
  {
    ghost var before := users.rows;
    var sent;
    ghost var sending;
    sent, outcome, sending := SendForUser(users, queued[|outcomes|], out, maxErrors, now);
    SweepStep(start, before, users.rows, queued, outcomes, outcome, maxErrors, now);
    DeliveredStep(queued, |outcomes|, outcomes, outcome, out);
  }

  /**
   * The table after the first |outcomes| queued users were sent: same ids,
   * each sent user's row as AfterSend says, the users still to be sent and
   * every row that was not QUEUED as they were.
   */
  ghost predicate Swept(start: map<int, UserRepository.User>, rows: map<int, UserRepository.User>,
                        queued: seq<UserRepository.User>, outcomes: seq<Result<string>>, maxErrors: int, now: string)
  {
    && |outcomes| <= |queued|
    && rows.Keys == start.Keys
    && (forall j :: 0 <= j < |queued| ==> queued[j].id in start && start[queued[j].id] == queued[j])
    && (forall j :: 0 <= j < |outcomes| ==> rows[queued[j].id] == AfterSend(queued[j], queued[j], outcomes[j], maxErrors, now))
    && (forall j :: |outcomes| <= j < |queued| ==> rows[queued[j].id] == queued[j])
    && (forall id :: id in start && start[id].status != UserRepository.Queued ==> rows[id] == start[id])
  }

  /** Each outcome is what delivering the queued user at the same position gives. */
  ghost predicate AllDelivered(queued: seq<UserRepository.User>, outcomes: seq<Result<string>>, out: Outside)
    requires "en" in out.catalogs
  {
    |outcomes| == |queued| && forall j :: 0 <= j < |queued| ==> outcomes[j] == Delivered(queued[j], out).outcome
  }

  /** Sending the next queued user extends AllDelivered by one outcome. */
  lemma DeliveredStep(queued: seq<UserRepository.User>, i: nat, outcomes: seq<Result<string>>,
                      outcome: Result<string>, out: Outside)
    requires "en" in out.catalogs && i < |queued|
    requires AllDelivered(queued[..i], outcomes, out)
    requires outcome == Delivered(queued[i], out).outcome
    ensures AllDelivered(queued[..i + 1], outcomes + [outcome], out)
  {
    var next := outcomes + [outcome];
    forall j | 0 <= j < i + 1
      ensures next[j] == Delivered(queued[..i + 1][j], out).outcome
    {
      if j < i {
        assert queued[..i + 1][j] == queued[..i][j];
      }
    }
  }

  /** Sending the next queued user extends Swept by one outcome. */
  lemma SweepStep(start: map<int, UserRepository.User>, before: map<int, UserRepository.User>,
                  after: map<int, UserRepository.User>, queued: seq<UserRepository.User>,
                  outcomes: seq<Result<string>>, outcome: Result<string>, maxErrors: int, now: string)
    requires Swept(start, before, queued, outcomes, maxErrors, now) && |outcomes| < |queued|
    requires UserRepository.Ascending(queued)
    requires forall j :: 0 <= j < |queued| ==> queued[j].status == UserRepository.Queued
    requires var u := queued[|outcomes|];
             u.id in before ==> after == before[u.id := AfterSend(before[u.id], u, outcome, maxErrors, now)]
    ensures Swept(start, after, queued, outcomes + [outcome], maxErrors, now)
  {
    var i := |outcomes|;
    var u := queued[i];
    assert before[u.id] == u;
    forall j | 0 <= j < |queued| && j != i
      ensures queued[j].id != u.id
    {
    }
  }

  /** The row after a run of sends that each fail, with the given messages, on consecutive sweeps. */
  function FailRepeatedly(row: UserRepository.User, messages: seq<string>, maxErrors: int, now: string)
    : UserRepository.User
    decreases |messages|
  {
    if messages == [] then row
    else FailRepeatedly(AfterSend(row, row, Err(messages[0]), maxErrors, now), messages[1..], maxErrors, now)
  }

  /**
   * A QUEUED user whose sends keep failing is retried until the error count
   * reaches `maxErrors`: while below it the row stays QUEUED, so the next
   * sweep picks it up again; at `maxErrors` it goes back to SCHEDULE with
   * the give-up note, and the count is not reset.
   */
  lemma {:induction false} RetriesThenGivesUp(row: UserRepository.User, messages: seq<string>, maxErrors: int, now: string)
    requires row.status == UserRepository.Queued
    requires messages != [] && row.errorCount + |messages| <= maxErrors
    ensures var r := FailRepeatedly(row, messages, maxErrors, now);
            && r.errorCount == row.errorCount + |messages|
            && (r.status == UserRepository.Queued <==> row.errorCount + |messages| < maxErrors)
            && (r.status == UserRepository.Schedule <==> row.errorCount + |messages| == maxErrors)
            && r.callback == Some(if row.errorCount + |messages| == maxErrors
                                  then UserRepository.GiveUpPrefix + messages[|messages| - 1]
                                  else messages[|messages| - 1])
            && r.socialMontage.GetOr("") == row.socialMontage.GetOr("")
    decreases |messages|
  {
    var next := AfterSend(row, row, Err(messages[0]), maxErrors, now);
    AfterSendEffects(row, row, Err(messages[0]), maxErrors, now);
    if |messages| > 1 {
      RetriesThenGivesUp(next, messages[1..], maxErrors, now);
      assert messages[1..][|messages[1..]| - 1] == messages[|messages| - 1];
    }
  }
}
