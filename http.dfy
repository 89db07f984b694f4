/**
 * What the clients share about HTTP: a call's outcome, the base-URL rule of
 * the two normalizeInstance methods, and PHP's urlencode/http_build_query,
 * which produce application/x-www-form-urlencoded text (section 17.13.4 of
 * HTML 4.01).
 */
module Http {
  import opened Wrappers
  import Text
  import Json

  /** The decoded JSON body of a call (Null when it is not JSON), or the message of the exception Guzzle threw. */
  type Response = Result<Json.Value>

  /**
   * normalizeInstance: trim; blank gives `fallback`; prefix "https://" unless
   * the value already starts with "http"; drop trailing '/' characters.
   */
  function NormalizeBaseUrl(instance: string, fallback: string): (r: string)
    ensures Text.IsBlank(instance) ==> r == fallback
    ensures !Text.IsBlank(instance) ==> Text.StartsWith(r, "http") && r[|r| - 1] != '/'
    ensures !Text.IsBlank(instance) && Text.StartsWith(Text.Trim(instance), "http")
            ==> r == Text.RTrimChar(Text.Trim(instance), '/')
    ensures !Text.IsBlank(instance) && !Text.StartsWith(Text.Trim(instance), "http")
            ==> r == Text.RTrimChar("https://" + Text.Trim(instance), '/')
  {
    var t := Text.Trim(instance);
    Text.TrimEmptyIffBlank(instance);
    if t == [] then fallback
    else
      var u := if Text.StartsWith(t, "http") then t else "https://" + t;
      assert u[..4] == "http";
      RTrimKeepsHttp(u);
      Text.RTrimChar(u, '/')
  }

  /** Stripping trailing slashes cannot reach into a leading "http". */
  lemma RTrimKeepsHttp(u: string)
    requires Text.StartsWith(u, "http")
    ensures var r := Text.RTrimChar(u, '/'); Text.StartsWith(r, "http") && r[|r| - 1] != '/'
  {
  }

  /** The characters urlencode leaves as they are. */
  predicate Unreserved(c: char) {
    'a' <= c <= 'z' || 'A' <= c <= 'Z' || '0' <= c <= '9' || c == '-' || c == '_' || c == '.'
  }

  function HexDigit(n: nat): (c: char)
    requires n < 16
    ensures IsHex(c) && HexValue(c) == n
  {
    if n < 10 then ('0' as int + n) as char else ('A' as int + n - 10) as char
  }

  predicate IsHex(c: char) { '0' <= c <= '9' || 'A' <= c <= 'F' }

  function HexValue(c: char): (n: nat)
    requires IsHex(c)
    ensures n < 16
  {
    if c <= '9' then c as int - '0' as int else c as int - 'A' as int + 10
  }

  /** "%XX" for each byte. */
  function PercentBytes(bytes: seq<nat>): (s: string)
    requires forall i :: 0 <= i < |bytes| ==> bytes[i] < 256
    ensures |s| == 3 * |bytes|
    ensures forall i :: 0 <= i < |s| ==> s[i] == '%' || IsHex(s[i])
  {
    if bytes == [] then ""
    else ['%', HexDigit(bytes[0] / 16), HexDigit(bytes[0] % 16)] + PercentBytes(bytes[1..])
  }

  /** urlencode of one character: kept, '+' for a space, else its UTF-8 bytes as "%XX". */
  function EncodeChar(c: char): (s: string)
    ensures s != []
    ensures s[0] != '%' ==> |s| == 1 && (Unreserved(c) || c == ' ')
    ensures forall i :: 0 <= i < |s| ==> s[i] == '%' || s[i] == '+' || IsHex(s[i]) || Unreserved(s[i])
  {
    if Unreserved(c) then [c]
    else if c == ' ' then "+"
    else PercentBytes(Text.Utf8Bytes(c))
  }

  /** urlencode($s). */
  function UrlEncode(s: string): (r: string)
    ensures forall i :: 0 <= i < |r| ==> r[i] == '%' || r[i] == '+' || IsHex(r[i]) || Unreserved(r[i])
  {
    if s == [] then "" else EncodeChar(s[0]) + UrlEncode(s[1..])
  }

  /** urlencode leaves a text of unreserved characters as it is. */
  lemma {:induction false} EncodeKeeps(s: string)
    requires forall i :: 0 <= i < |s| ==> Unreserved(s[i])
    ensures UrlEncode(s) == s
  {
    if s != [] {
      EncodeKeeps(s[1..]);
      assert s == [s[0]] + s[1..];
    }
  }

  /** The separators of a query string never occur in an encoded key or value. */
  lemma UrlEncodeHasNoSeparators(s: string)
    ensures '&' !in UrlEncode(s) && '=' !in UrlEncode(s)
  {
  }

  /** urldecode, to bytes: '+' is a space and "%XX" a byte. */
  function UrlDecode(s: string): seq<nat> {
    if s == [] then []
    else if s[0] == '%' && |s| >= 3 && IsHex(s[1]) && IsHex(s[2]) then
      [HexValue(s[1]) * 16 + HexValue(s[2])] + UrlDecode(s[3..])
    else if s[0] == '+' then [32] + UrlDecode(s[1..])
    else [s[0] as int] + UrlDecode(s[1..])
  }

  /** One "%XX" group decodes to its byte. */
  lemma DecodeOnePercent(b: nat, tail: string)
    requires b < 256
    ensures UrlDecode(['%', HexDigit(b / 16), HexDigit(b % 16)] + tail) == [b] + UrlDecode(tail)
  {
    var s := ['%', HexDigit(b / 16), HexDigit(b % 16)] + tail;
    assert s[0] == '%' && s[3..] == tail;
    assert HexValue(s[1]) * 16 + HexValue(s[2]) == b;
  }

  lemma {:induction false} DecodePercentBytes(bytes: seq<nat>, rest: string)
    requires forall i :: 0 <= i < |bytes| ==> bytes[i] < 256
    ensures UrlDecode(PercentBytes(bytes) + rest) == bytes + UrlDecode(rest)
  {
    if bytes == [] {
      assert PercentBytes(bytes) + rest == rest;
    } else {
      var head, t := ['%', HexDigit(bytes[0] / 16), HexDigit(bytes[0] % 16)], PercentBytes(bytes[1..]);
      assert PercentBytes(bytes) == head + t;
      Regroup(head, t, rest);
      DecodeOnePercent(bytes[0], t + rest);
      DecodePercentBytes(bytes[1..], rest);
      Regroup([bytes[0]], bytes[1..], UrlDecode(rest));
      assert [bytes[0]] + bytes[1..] == bytes;
    }
  }

  lemma Regroup<T>(a: seq<T>, b: seq<T>, c: seq<T>)
    ensures (a + b) + c == a + (b + c)
  {
  }

  lemma DecodeEncodeChar(c: char, rest: string)
    ensures UrlDecode(EncodeChar(c) + rest) == Text.Utf8Bytes(c) + UrlDecode(rest)
  {
    if Unreserved(c) || c == ' ' {
      assert (EncodeChar(c) + rest)[1..] == rest;
    } else {
      DecodePercentBytes(Text.Utf8Bytes(c), rest);
    }
  }

  /** urldecode undoes urlencode: the receiver reads back the UTF-8 bytes of the text. */
  lemma {:induction false} UrlDecodeEncode(s: string)
    ensures UrlDecode(UrlEncode(s)) == Text.Utf8(s)
  {
    if s != [] {
      DecodeEncodeChar(s[0], UrlEncode(s[1..]));
      UrlDecodeEncode(s[1..]);
    }
  }

  /** One "key=value" pair of a query string. */
  function QueryPair(p: (string, string)): string {
    UrlEncode(p.0) + "=" + UrlEncode(p.1)
  }

  function QueryPairs(pairs: seq<(string, string)>): (r: seq<string>)
    ensures |r| == |pairs|
    ensures forall i :: 0 <= i < |pairs| ==> r[i] == QueryPair(pairs[i])
  {
    if pairs == [] then [] else [QueryPair(pairs[0])] + QueryPairs(pairs[1..])
  }

  /** http_build_query: the encoded pairs joined by '&'. */
  function BuildQuery(pairs: seq<(string, string)>): string {
    Text.Join("&", QueryPairs(pairs))
  }

  /**
   * Splitting a built query at '&' gives back one "key=value" piece per
   * pair, in order, and each piece splits at '=' into the encoded key and value.
   */
  lemma BuildQuerySplits(pairs: seq<(string, string)>)
    requires |pairs| >= 1
    ensures var pieces := Text.Split(BuildQuery(pairs), '&');
            |pieces| == |pairs|
            && forall i :: 0 <= i < |pairs| ==> Text.Split(pieces[i], '=') == [UrlEncode(pairs[i].0), UrlEncode(pairs[i].1)]
  {
    var parts := QueryPairs(pairs);
    forall i | 0 <= i < |parts| ensures '&' !in parts[i] {
      UrlEncodeHasNoSeparators(pairs[i].0);
      UrlEncodeHasNoSeparators(pairs[i].1);
    }
    Text.SplitJoin(parts, '&');
    forall i | 0 <= i < |pairs|
      ensures Text.Split(parts[i], '=') == [UrlEncode(pairs[i].0), UrlEncode(pairs[i].1)]
    {
      UrlEncodeHasNoSeparators(pairs[i].0);
      UrlEncodeHasNoSeparators(pairs[i].1);
      Text.SplitJoin([UrlEncode(pairs[i].0), UrlEncode(pairs[i].1)], '=');
      assert Text.Join("=", [UrlEncode(pairs[i].0), UrlEncode(pairs[i].1)]) == parts[i];
    }
  }

  /** A form body or query: ordered name/value pairs. */
  type Form = seq<(string, string)>

  /** The value of the first field called `name`. */
  function FormValue(form: Form, name: string): (r: Option<string>)
    ensures r.None? <==> forall i :: 0 <= i < |form| ==> form[i].0 != name
  {
    if form == [] then None
    else if form[0].0 == name then Some(form[0].1)
    else FormValue(form[1..], name)
  }

  /** The first field called `name` is the one read. */
  lemma {:induction false} FormValueAt(form: Form, i: nat, name: string)
    requires i < |form| && form[i].0 == name
    requires forall j :: 0 <= j < i ==> form[j].0 != name
    ensures FormValue(form, name) == Some(form[i].1)
  {
    if i > 0 {
      FormValueAt(form[1..], i - 1, name);
    }
  }

  datatype Verb = GET | POST

  /** What a request carries besides its URL and headers. */
  datatype Body =
    | NoBody
    | JsonBody(json: Json.Value)
    | FormBody(form: Form)
    | RawBody(bytes: seq<nat>)
    | Multipart(field: string, filename: string, contents: seq<nat>)

  datatype Request = Request(verb: Verb, url: string, headers: Form, query: Form, body: Body)

  /** The HTTP client: the outcome of sending a request, decoded. */
  type Transport = Request -> Response

  /** is_array($json) && isset($json[k1], $json[k2], ...). */
  predicate HasKeys(v: Json.Value, keys: seq<string>) {
    Json.IsArray(v) && forall i :: 0 <= i < |keys| ==> Json.IsSet(v, keys[i])
  }

  /**
   * The check the clients apply to a decoded body: a PHP array with every
   * key in `keys` set, else a RuntimeException carrying `msg`; an exception
   * of the HTTP client passes through.
   */
  function RequireKeys(resp: Response, keys: seq<string>, msg: string): (r: Result<Json.Value>)
    ensures resp.Err? ==> r == resp
    ensures resp.Ok? && r.Err? ==> r.error == msg
    ensures r.Ok? <==> resp.Ok? && HasKeys(resp.value, keys)
    ensures r.Ok? ==> r == resp
  {
    if resp.Err? then resp
    else if HasKeys(resp.value, keys) then resp
    else Err(msg)
  }
}
