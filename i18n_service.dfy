/**
 * Locale resolution and the locale cookie (app/src/Services/I18nService.php).
 * The locales the site speaks are "en" and "pt-BR".
 */
module I18nService {
  import opened Wrappers
  import Text
  import Helpers

  predicate Supported(locale: string) {
    locale == "en" || locale == "pt-BR"
  }

  /**
   * resolveLocaleFromRequestOrCookie: a supported `locale` cookie wins; any
   * other cookie (or a cookie that is not a string, given as None) is ignored
   * and the lower-cased Accept-Language decides.
   */
  function ResolveLocale(cookie: Option<string>, acceptLanguage: string): (r: string)
    ensures Supported(r)
    ensures cookie.Some? && Supported(cookie.value) ==> r == cookie.value
    ensures !(cookie.Some? && Supported(cookie.value)) ==>
              (r == "pt-BR" <==> Text.StartsWith(Text.ToLower(acceptLanguage), "pt"))
  {
    if cookie.Some? && Supported(cookie.value) then cookie.value
    else if Text.StartsWith(Text.ToLower(acceptLanguage), "pt") then "pt-BR"
    else "en"
  }

  /** An unsupported cookie carries no weight: the result is what no cookie would give. */
  lemma ForeignCookieIgnored(cookie: string, acceptLanguage: string)
    requires !Supported(cookie)
    ensures ResolveLocale(Some(cookie), acceptLanguage) == ResolveLocale(None, acceptLanguage)
  {
  }

  /** One year, in seconds. */
  const MaxAge: int := 60 * 60 * 24 * 365

  /** The cookie format "locale=%s; Path=/; Max-Age=%d; SameSite=Lax", written as its pieces. */
  const CookieFormat: string := "locale=" + ("%s" + ("; Path=/; Max-Age=" + ("%d" + "; SameSite=Lax")))

  /** makeLocaleCookieHeader: the sprintf of the Set-Cookie value. */
  function MakeLocaleCookieHeader(locale: string): Option<string> {
    Helpers.Sprintf(CookieFormat, [Helpers.SArg(locale), Helpers.IArg(MaxAge)])
  }

  /** A `%s` and a `%d` between plain pieces print the text and the number between those pieces. */
  lemma SprintfTextNumber(l0: string, l1: string, l2: string, a: string, n: int)
    requires Helpers.NoPercent(l0) && Helpers.NoPercent(l1) && Helpers.NoPercent(l2)
    ensures Helpers.Sprintf(l0 + (['%', 's'] + (l1 + (['%', 'd'] + l2))), [Helpers.SArg(a)] + [Helpers.IArg(n)])
            == Some((l0 + a) + ((l1 + Text.IntToString(n)) + l2))
  {
    var f1 := l1 + (['%', 'd'] + l2);
    Helpers.SprintfPlain(l2, []);
    Helpers.SprintfStep(l1, 'd', Helpers.IArg(n), l2, []);
    assert [Helpers.IArg(n)] + [] == [Helpers.IArg(n)];
    assert Helpers.Sprintf(f1, [Helpers.IArg(n)]) == Some((l1 + Text.IntToString(n)) + l2);
    Helpers.SprintfStep(l0, 's', Helpers.SArg(a), f1, [Helpers.IArg(n)]);
  }

  /** The format prints the locale and the age into their places and the rest as it stands. */
  lemma CookieFormatFills(locale: string, age: int)
    ensures Helpers.Sprintf(CookieFormat, [Helpers.SArg(locale), Helpers.IArg(age)])
            == Some("locale=" + locale + "; Path=/; Max-Age=" + Text.IntToString(age) + "; SameSite=Lax")
  {
    var l0, l1, l2 := "locale=", "; Path=/; Max-Age=", "; SameSite=Lax";
    CookieFormatPieces();
    assert [Helpers.SArg(locale), Helpers.IArg(age)] == [Helpers.SArg(locale)] + [Helpers.IArg(age)];
    SprintfTextNumber(l0, l1, l2, locale, age);
    var n := Text.IntToString(age);
    assert (l0 + locale) + ((l1 + n) + l2) == l0 + locale + l1 + n + l2 by {
      Regroup(l0, locale, l1, n, l2);
    }
  }

  lemma CookieFormatPieces()
    ensures CookieFormat == "locale=" + (['%', 's'] + ("; Path=/; Max-Age=" + (['%', 'd'] + "; SameSite=Lax")))
  {
  }

  lemma Regroup(a: string, b: string, c: string, d: string, e: string)
    ensures (a + b) + ((c + d) + e) == a + b + c + d + e
  {
  }

  /**
   * The header is a Set-Cookie value in the form of section 4.1 of RFC 6265:
   * the pair locale=<locale>, then the Path, Max-Age (one year) and SameSite
   * attributes.
   */
  lemma CookieHeaderShape(locale: string)
    ensures MaxAge == 31536000
    ensures MakeLocaleCookieHeader(locale)
            == Some("locale=" + locale + "; Path=/; Max-Age=" + Text.IntToString(MaxAge) + "; SameSite=Lax")
  {
    CookieFormatFills(locale, MaxAge);
  }
}
