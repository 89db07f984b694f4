/**
 * The global helpers of app/src/helpers.php: translation lookup with
 * fallback, pluralisation, sprintf, and the session map with its flash
 * messages. Language files are a map from locale to key/text catalogue.
 */
module Helpers {
  import opened Wrappers
  import Text

  type Catalog = map<string, string>

  /** An argument to sprintf. */
  datatype Arg = SArg(s: string) | IArg(i: int)

  /** The text a `%s` or `%d` conversion prints for an argument. */
  function Render(conv: char, a: Arg): string
    requires conv == 's' || conv == 'd'
  {
    match a
    case SArg(s) => if conv == 's' then s else Text.IntToString(Text.IntVal(s))
    case IArg(i) => Text.IntToString(i)
  }

  function Prepend(p: string, r: Option<string>): Option<string> {
    if r.Some? then Some(p + r.value) else None
  }

  /** True when `fmt` has no conversion specification at all. */
  predicate NoPercent(fmt: string) { '%' !in fmt }

  /**
   * sprintf($fmt, ...$args) for the conversions `%s`, `%d` and `%%`; None when
   * there are fewer arguments than conversions (PHP 8 throws ArgumentCountError).
   */
  function Sprintf(fmt: string, args: seq<Arg>): Option<string>
    decreases |fmt|
  {
    if fmt == [] then Some("")
    else if fmt[0] == '%' && |fmt| >= 2 && fmt[1] == '%' then Prepend("%", Sprintf(fmt[2..], args))
    else if fmt[0] == '%' && |fmt| >= 2 && (fmt[1] == 's' || fmt[1] == 'd') then
      if args == [] then None else Prepend(Render(fmt[1], args[0]), Sprintf(fmt[2..], args[1..]))
    else Prepend([fmt[0]], Sprintf(fmt[1..], args))
  }

  /** A text without conversions is printed unchanged, whatever the arguments. */
  lemma {:induction false} SprintfPlain(fmt: string, args: seq<Arg>)
    requires NoPercent(fmt)
    ensures Sprintf(fmt, args) == Some(fmt)
  {
    if fmt != [] {
      assert fmt[0] != '%';
      assert NoPercent(fmt[1..]) by { assert forall i :: 0 <= i < |fmt[1..]| ==> fmt[1..][i] == fmt[i + 1]; }
      SprintfPlain(fmt[1..], args);
      assert fmt == [fmt[0]] + fmt[1..];
    }
  }

  /** The number of `%s` and `%d` conversions in `fmt`, scanned as sprintf scans it (`%%` is not one). */
  function Conversions(fmt: string): nat
    decreases |fmt|
  {
    if fmt == [] then 0
    else if fmt[0] == '%' && |fmt| >= 2 && fmt[1] == '%' then Conversions(fmt[2..])
    else if fmt[0] == '%' && |fmt| >= 2 && (fmt[1] == 's' || fmt[1] == 'd') then 1 + Conversions(fmt[2..])
    else Conversions(fmt[1..])
  }

  /** sprintf fails exactly when the format has more conversions than there are arguments. */
  lemma {:induction false} SprintfFailsExactly(fmt: string, args: seq<Arg>)
    ensures Sprintf(fmt, args).None? <==> Conversions(fmt) > |args|
    decreases |fmt|
  {
    if fmt == [] {
    } else if fmt[0] == '%' && |fmt| >= 2 && fmt[1] == '%' {
      SprintfFailsExactly(fmt[2..], args);
    } else if fmt[0] == '%' && |fmt| >= 2 && (fmt[1] == 's' || fmt[1] == 'd') {
      if args != [] {
        SprintfFailsExactly(fmt[2..], args[1..]);
      }
    } else {
      SprintfFailsExactly(fmt[1..], args);
    }
  }

  /**
   * The message of the ArgumentCountError PHP 8 throws for sprintf($fmt, ...$args):
   * the arguments required and given, each counting the format itself.
   */
  function ArgumentCountMessage(fmt: string, args: seq<Arg>): string {
    Text.IntToString(Conversions(fmt) + 1) + " arguments are required, " + Text.IntToString(|args| + 1) + " given"
  }

  /** The locale `__` reads: the explicit argument, else the cookie, else Accept-Language. */
  function CandidateLocale(locale: Option<string>, cookie: Option<string>, acceptLanguage: string): (r: string)
    ensures locale.Some? ==> r == locale.value
    ensures locale.None? && cookie.Some? ==> r == cookie.value
    ensures locale.None? && cookie.None? ==> (r == "pt-BR" <==> Text.StartsWith(Text.ToLower(acceptLanguage), "pt"))
    ensures locale.None? && cookie.None? ==> r in {"pt-BR", "en"}
  {
    if locale.Some? then locale.value
    else if cookie.Some? then cookie.value
    else if Text.StartsWith(Text.ToLower(acceptLanguage), "pt") then "pt-BR"
    else "en"
  }

  /**
   * The untranslated template for `key`: the candidate locale's file when it
   * exists (otherwise the English file), then the English file, then the key.
   */
  function Template(catalogs: map<string, Catalog>, key: string, candidate: string): (t: string)
    requires "en" in catalogs
    ensures candidate in catalogs && key in catalogs[candidate] ==> t == catalogs[candidate][key]
    ensures (candidate !in catalogs || key !in catalogs[candidate]) && key in catalogs["en"] ==> t == catalogs["en"][key]
    ensures (candidate !in catalogs || key !in catalogs[candidate]) && key !in catalogs["en"] ==> t == key
  {
    var translations := if candidate in catalogs then catalogs[candidate] else catalogs["en"];
    if key in translations then translations[key]
    else if key in catalogs["en"] then catalogs["en"][key]
    else key
  }

  /** __($key, $params, $locale): look up, then format only when there are parameters. */
  function Translate(catalogs: map<string, Catalog>, key: string, params: seq<Arg>,
                     locale: Option<string>, cookie: Option<string>, acceptLanguage: string): (r: Option<string>)
    requires "en" in catalogs
    ensures params == [] ==> r == Some(Template(catalogs, key, CandidateLocale(locale, cookie, acceptLanguage)))
  {
    var text := Template(catalogs, key, CandidateLocale(locale, cookie, acceptLanguage));
    if params != [] then Sprintf(text, params) else Some(text)
  }

  /** The form trans_choice picks from a "singular|plural" text. */
  function ChooseForm(text: string, count: int): (form: string)
    ensures '|' !in text ==> form == text
    ensures '|' in text && count == 1 ==> form == Text.Split(text, '|')[0]
    ensures '|' in text && count != 1 ==> form == Text.Split(text, '|')[1]
  {
    if '|' in text then
      var parts := Text.Split(text, '|');
      if count == 1 then parts[0] else parts[1]
    else text
  }

  /** trans_choice($key, $count, $params, $locale): the count is the first format argument. */
  function TransChoice(catalogs: map<string, Catalog>, key: string, count: int, params: seq<Arg>,
                       locale: Option<string>, cookie: Option<string>, acceptLanguage: string): Option<string>
    requires "en" in catalogs
  {
    var text := Template(catalogs, key, CandidateLocale(locale, cookie, acceptLanguage));
    Sprintf(ChooseForm(text, count), [IArg(count)] + params)
  }

  /** A text with one '|' splits into exactly its two forms. */
  lemma ChooseFormOfTwo(one: string, many: string, count: int)
    requires '|' !in one && '|' !in many
    ensures ChooseForm(one + "|" + many, count) == if count == 1 then one else many
  {
    Text.SplitJoin([one, many], '|');
    assert Text.Join("|", [one, many]) == one + "|" + many;
  }

  /** A leading `%d` prints the count, and a plain remainder follows unchanged. */
  lemma SprintfCount(rest: string, count: int)
    requires NoPercent(rest)
    ensures Sprintf("%d" + rest, [IArg(count)]) == Some(Text.IntToString(count) + rest)
  {
    var form := "%d" + rest;
    assert form[0] == '%' && form[1] == 'd' && form[2..] == rest;
    assert [IArg(count)][1..] == [];
    SprintfPlain(rest, []);
  }

  /** A prefix without conversions is printed as it is, ahead of the rest. */
  lemma {:induction false} SprintfLiteral(p: string, rest: string, args: seq<Arg>)
    requires NoPercent(p)
    ensures Sprintf(p + rest, args) == Prepend(p, Sprintf(rest, args))
  {
    if p == [] {
      assert p + rest == rest;
      var r := Sprintf(rest, args);
      if r.Some? {
        assert p + r.value == r.value;
      }
    } else {
      assert (p + rest)[0] == p[0] && (p + rest)[1..] == p[1..] + rest;
      assert NoPercent(p[1..]) by { assert forall i :: 0 <= i < |p[1..]| ==> p[1..][i] == p[i + 1]; }
      SprintfLiteral(p[1..], rest, args);
      assert p[0] != '%';
      assert Sprintf(p + rest, args) == Prepend([p[0]], Prepend(p[1..], Sprintf(rest, args)));
      var r := Sprintf(rest, args);
      if r.Some? {
        assert [p[0]] + (p[1..] + r.value) == p + r.value;
      }
    }
  }

  /** A `%s` or `%d` conversion prints the next argument, then the rest goes on with the others. */
  lemma SprintfConversion(conv: char, a: Arg, rest: string, args: seq<Arg>)
    requires conv == 's' || conv == 'd'
    ensures Sprintf(['%', conv] + rest, [a] + args) == Prepend(Render(conv, a), Sprintf(rest, args))
  {
    var f := ['%', conv] + rest;
    assert f[0] == '%' && f[1] == conv && f[2..] == rest;
    assert ([a] + args)[1..] == args;
  }

  /** A plain prefix, then a conversion: both printed, then the rest with the remaining arguments. */
  lemma SprintfStep(lit: string, conv: char, a: Arg, rest: string, args: seq<Arg>)
    requires NoPercent(lit) && (conv == 's' || conv == 'd')
    ensures Sprintf(lit + (['%', conv] + rest), [a] + args) == Prepend(lit + Render(conv, a), Sprintf(rest, args))
  {
    SprintfLiteral(lit, ['%', conv] + rest, [a] + args);
    SprintfConversion(conv, a, rest, args);
    var r := Sprintf(rest, args);
    if r.Some? {
      assert lit + (Render(conv, a) + r.value) == (lit + Render(conv, a)) + r.value;
    }
  }

  /** With a text "%d one|%d many", the count picks the form and is printed into it. */
  lemma TransChoiceForms(catalogs: map<string, Catalog>, key: string, count: int,
                         locale: Option<string>, one: string, many: string)
    requires "en" in catalogs && locale.Some? && locale.value in catalogs
    requires key in catalogs[locale.value] && catalogs[locale.value][key] == "%d " + one + "|%d " + many
    requires NoPercent(one) && NoPercent(many) && '|' !in one && '|' !in many
    ensures TransChoice(catalogs, key, count, [], locale, None, "")
            == Some(Text.IntToString(count) + " " + (if count == 1 then one else many))
  {
    var rest := " " + (if count == 1 then one else many);
    CountFormChosen(one, many, count);
    SprintfCount(rest, count);
    assert Template(catalogs, key, CandidateLocale(locale, None, "")) == "%d " + one + "|%d " + many;
    assert [IArg(count)] + [] == [IArg(count)];
    assert Text.IntToString(count) + rest == Text.IntToString(count) + " " + (if count == 1 then one else many);
  }

  /** Of "%d one|%d many", the count picks "%d one" or "%d many". */
  lemma CountFormChosen(one: string, many: string, count: int)
    requires '|' !in one && '|' !in many
    ensures ChooseForm("%d " + one + "|%d " + many, count) == "%d" + (" " + (if count == 1 then one else many))
  {
    ChooseFormOfTwo("%d " + one, "%d " + many, count);
    assert "%d " + one + "|%d " + many == ("%d " + one) + "|" + ("%d " + many);
    if count == 1 {
      CountThenSpace(one);
    } else {
      CountThenSpace(many);
    }
  }

  lemma CountThenSpace(x: string)
    ensures "%d " + x == "%d" + (" " + x)
  {
    assert "%d" + " " == "%d ";
    assert ("%d" + " ") + x == "%d" + (" " + x);
  }

  /** A value stored in the session. */
  datatype SessionValue = SNull | SBool(b: bool) | SInt(i: int) | SStr(s: string)

  /** $_SESSION[$key] ?? $default: a stored null reads as absent. */
  function SessionLookup(data: map<string, SessionValue>, key: string, default: SessionValue): (v: SessionValue)
    ensures key !in data ==> v == default
    ensures key in data && data[key] != SNull ==> v == data[key]
  {
    if key in data && data[key] != SNull then data[key] else default
  }

  /** After session_set, session_get reads the stored value back unless it is null. */
  lemma GetAfterSet(data: map<string, SessionValue>, key: string, value: SessionValue, default: SessionValue)
    ensures SessionLookup(data[key := value], key, default) == if value == SNull then default else value
  {
  }

  /** The PHP session: whether it is active, and the $_SESSION map. */
  class Session {
    var active: bool
    var data: map<string, SessionValue>

    constructor (stored: map<string, SessionValue>)
      ensures !active && data == stored
    {
      active := false;
      data := stored;
    }

    /** session_start_safe. */
    method StartSafe()
      modifies this
      ensures active && data == old(data)
    {
      active := true;
    }

    /**
     * flash($key, $value): with a value, store it and return null; without,
     * return the stored string (null for anything else) and remove the key.
     */
    method Flash(key: string, value: Option<string>) returns (r: Option<string>)
      modifies this
      ensures active
      ensures value.Some? ==> data == old(data)[key := SStr(value.value)] && r == None
      ensures value.None? ==> data == old(data) - {key}
      ensures value.None? ==> r == if key in old(data) && old(data)[key].SStr? then Some(old(data)[key].s) else None
    {
      StartSafe();
      if value.Some? {
        data := data[key := SStr(value.value)];
        return None;
      }
      var v := SessionLookup(data, key, SNull);
      data := data - {key};
      r := if v.SStr? then Some(v.s) else None;
    }

    /** session_get($key, $default). */
    method Get(key: string, default: SessionValue) returns (v: SessionValue)
      modifies this
      ensures active && data == old(data)
      ensures v == SessionLookup(data, key, default)
    {
      StartSafe();
      v := SessionLookup(data, key, default);
    }

    /** session_set($key, $value). */
    method Set(key: string, value: SessionValue)
      modifies this
      ensures active && data == old(data)[key := value]
    {
      StartSafe();
      data := data[key := value];
    }

    /** session_remove($key). */
    method Remove(key: string)
      modifies this
      ensures active && data == old(data) - {key}
    {
      StartSafe();
      data := data - {key};
    }

    /** session_destroy_safe: empty and end the session only when it is active. */
    method DestroySafe()
      modifies this
      ensures old(active) ==> !active && data == map[]
      ensures !old(active) ==> !active && data == old(data)
    {
      if active {
        data := map[];
        active := false;
      }
    }
  }

  /** A flash message is read once: the second read finds nothing. */
  method FlashReadsOnce(s: Session, key: string, msg: string) returns (first: Option<string>, second: Option<string>)
    modifies s
    ensures first == Some(msg) && second == None
    ensures key !in s.data
  {
    var stored := s.Flash(key, Some(msg));
    first := s.Flash(key, None);
    second := s.Flash(key, None);
  }
}
