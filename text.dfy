/**
 * The PHP string built-ins the core relies on, over strings of code points:
 * trim/ltrim/rtrim, str_starts_with, explode/implode, intval, the decimal
 * rendering of integers, strtolower and the UTF-8 byte length of a string.
 */
module Text {
  import opened Wrappers

  /** The characters PHP's trim, ltrim and rtrim strip by default. */
  predicate IsWs(c: char) {
    c == ' ' || c == '\t' || c == '\n' || c == '\r' || c == '\0' || c == '\U{000B}'
  }

  /** ltrim($s): drop leading whitespace. */
  function LTrim(s: string): (r: string)
    ensures |r| <= |s| && r == s[|s| - |r|..]
    ensures r == [] || !IsWs(r[0])
    ensures forall i :: 0 <= i < |s| - |r| ==> IsWs(s[i])
  {
    if s != [] && IsWs(s[0]) then LTrim(s[1..]) else s
  }

  /** rtrim($s): drop trailing whitespace. */
  function RTrim(s: string): (r: string)
    ensures |r| <= |s| && r == s[..|r|]
    ensures r == [] || !IsWs(r[|r| - 1])
    ensures forall i :: |r| <= i < |s| ==> IsWs(s[i])
  {
    if s != [] && IsWs(s[|s| - 1]) then RTrim(s[..|s| - 1]) else s
  }

  /** trim($s). */
  function Trim(s: string): (r: string)
    ensures r == [] || (!IsWs(r[0]) && !IsWs(r[|r| - 1]))
    ensures |r| <= |s|
  {
    RTrim(LTrim(s))
  }

  /** True when the string consists of trim-whitespace only. */
  predicate IsBlank(s: string) {
    forall i :: 0 <= i < |s| ==> IsWs(s[i])
  }

  lemma {:induction false} TrimEmptyIffBlank(s: string)
    ensures Trim(s) == [] <==> IsBlank(s)
  {
    var l := LTrim(s);
    if l != [] {
      assert !IsWs(l[0]);
      assert l[0] == s[|s| - |l|];
    }
  }

  /** ltrim($s, $c) for a single character `c`. */
  function LTrimChar(s: string, c: char): (r: string)
    ensures |r| <= |s| && r == s[|s| - |r|..]
    ensures r == [] || r[0] != c
    ensures forall i :: 0 <= i < |s| - |r| ==> s[i] == c
  {
    if s != [] && s[0] == c then LTrimChar(s[1..], c) else s
  }

  /** rtrim($s, $c) for a single character `c`. */
  function RTrimChar(s: string, c: char): (r: string)
    ensures |r| <= |s| && r == s[..|r|]
    ensures r == [] || r[|r| - 1] != c
    ensures forall i :: |r| <= i < |s| ==> s[i] == c
  {
    if s != [] && s[|s| - 1] == c then RTrimChar(s[..|s| - 1], c) else s
  }

  /** str_starts_with($s, $p). */
  predicate StartsWith(s: string, p: string) {
    |p| <= |s| && s[..|p|] == p
  }

  /** substr($s, 0, $n) for n >= 0. */
  function Prefix(s: string, n: nat): (r: string)
    ensures |r| == if n < |s| then n else |s|
    ensures r == s[..|r|]
  {
    if n < |s| then s[..n] else s
  }

  /** The first index of `c` in `s`. */
  function IndexOf(s: string, c: char): (i: nat)
    requires c in s
    ensures i < |s| && s[i] == c && c !in s[..i]
  {
    if s[0] == c then 0 else 1 + IndexOf(s[1..], c)
  }

  /** The last index of `c` in `s`, as mb_strrpos, or None. */
  function LastIndexOf(s: string, c: char): (r: Option<nat>)
    ensures r.None? <==> c !in s
    ensures r.Some? ==> r.value < |s| && s[r.value] == c && c !in s[r.value + 1..]
  {
    if s == [] then None
    else if s[|s| - 1] == c then Some(|s| - 1)
    else
      var r := LastIndexOf(s[..|s| - 1], c);
      assert s[..|s| - 1] + [s[|s| - 1]] == s;
      if r.Some? then
        assert s[r.value + 1..] == s[..|s| - 1][r.value + 1..] + [s[|s| - 1]];
        r
      else r
  }

  /** implode($sep, $parts). */
  function Join(sep: string, parts: seq<string>): string
  {
    if |parts| == 0 then ""
    else if |parts| == 1 then parts[0]
    else parts[0] + sep + Join(sep, parts[1..])
  }

  /** explode($sep, $s) for a one-character separator. */
  function Split(s: string, sep: char): (parts: seq<string>)
    ensures |parts| >= 1
    ensures sep in s <==> |parts| >= 2
    ensures forall i :: 0 <= i < |parts| ==> sep !in parts[i]
    ensures Join([sep], parts) == s
    decreases |s|
  {
    if sep !in s then [s]
    else
      var i := IndexOf(s, sep);
      var rest := Split(s[i + 1..], sep);
      assert s == s[..i] + [sep] + s[i + 1..];
      [s[..i]] + rest
  }

  /** explode undoes implode when no part contains the separator. */
  lemma {:induction false} SplitJoin(parts: seq<string>, sep: char)
    requires |parts| >= 1
    requires forall i :: 0 <= i < |parts| ==> sep !in parts[i]
    ensures Split(Join([sep], parts), sep) == parts
  {
    if |parts| > 1 {
      var s := Join([sep], parts);
      var tail := Join([sep], parts[1..]);
      assert s == parts[0] + [sep] + tail;
      assert sep in s by { assert s[|parts[0]|] == sep; }
      var i := IndexOf(s, sep);
      assert s[..|parts[0]|] == parts[0];
      assert s[|parts[0]|] == sep;
      assert i == |parts[0]|;
      assert s[..i] == parts[0];
      assert s[i + 1..] == tail;
      SplitJoin(parts[1..], sep);
    } else {
      assert Join([sep], parts) == parts[0];
    }
  }

  /** The one-character string for a decimal digit. */
  function DigitChar(d: nat): (c: char)
    requires d < 10
    ensures '0' <= c <= '9'
  {
    ('0' as int + d) as char
  }

  predicate IsDigit(c: char) { '0' <= c <= '9' }

  function DigitValue(c: char): (d: nat)
    requires IsDigit(c)
    ensures d < 10 && DigitChar(d) == c
  {
    (c as int - '0' as int)
  }

  /** The decimal rendering of a natural number, as PHP prints it. */
  function NatToString(n: nat): (s: string)
    ensures |s| >= 1 && forall i :: 0 <= i < |s| ==> IsDigit(s[i])
    decreases n
  {
    if n < 10 then [DigitChar(n)] else NatToString(n / 10) + [DigitChar(n % 10)]
  }

  /** (string) $n for an integer, and the `%d` conversion of sprintf. */
  function IntToString(n: int): (s: string)
    ensures |s| >= 1
  {
    if n < 0 then "-" + NatToString(-n) else NatToString(n)
  }

  /** sprintf('%02d', n) for 0 <= n < 100. */
  function Pad2(n: nat): (s: string)
    requires n < 100
    ensures |s| == 2 && IsDigit(s[0]) && IsDigit(s[1])
  {
    [DigitChar(n / 10), DigitChar(n % 10)]
  }

  /** The number spelled by the longest run of digits at the start of `s`, read left to right onto `acc`. */
  function DigitsValue(s: string, acc: nat): nat
  {
    if s == [] || !IsDigit(s[0]) then acc else DigitsValue(s[1..], acc * 10 + DigitValue(s[0]))
  }

  /** The whitespace PHP skips before a number in a numeric string. */
  predicate IsNumWs(c: char) {
    c == ' ' || c == '\t' || c == '\n' || c == '\r' || c == '\U{000B}' || c == '\U{000C}'
  }

  function SkipNumWs(s: string): (r: string)
    ensures |r| <= |s|
    ensures r == [] || !IsNumWs(r[0])
  {
    if s != [] && IsNumWs(s[0]) then SkipNumWs(s[1..]) else s
  }

  /**
   * intval($s) and (int) $s: leading whitespace, an optional sign, then the
   * leading decimal digits; 0 when there are none.
   */
  function IntVal(s: string): int
  {
    var t := SkipNumWs(s);
    if t != [] && t[0] == '-' then -(DigitsValue(t[1..], 0) as int)
    else if t != [] && t[0] == '+' then DigitsValue(t[1..], 0)
    else DigitsValue(t, 0)
  }

  /** Reading back a two-digit rendering gives the number. */
  lemma {:induction false} IntValPad2(n: nat, rest: string)
    requires n < 100
    requires rest == [] || !IsDigit(rest[0])
    ensures IntVal(Pad2(n) + rest) == n
  {
    var s := Pad2(n) + rest;
    assert SkipNumWs(s) == s;
    assert s[1..] == [DigitChar(n % 10)] + rest;
    assert s[1..][1..] == rest;
    assert DigitsValue(s, 0) == DigitsValue(s[1..], n / 10);
    assert DigitsValue(s[1..], n / 10) == DigitsValue(rest, (n / 10) * 10 + n % 10);
  }

  /** strtolower: ASCII letters only (PHP 8 is locale-insensitive). */
  function ToLower(s: string): (r: string)
    ensures |r| == |s|
    ensures forall i :: 0 <= i < |s| ==> r[i] == LowerChar(s[i])
  {
    if s == [] then [] else [LowerChar(s[0])] + ToLower(s[1..])
  }

  function LowerChar(c: char): char {
    if 'A' <= c <= 'Z' then (c as int + 32) as char else c
  }

  /** The number of bytes of the UTF-8 encoding of one code point. */
  function Utf8Len(c: char): (n: nat)
    ensures 1 <= n <= 4
  {
    if c as int < 0x80 then 1
    else if c as int < 0x800 then 2
    else if c as int < 0x10000 then 3
    else 4
  }

  /** The UTF-8 encoding of one code point. */
  function Utf8Bytes(c: char): (b: seq<nat>)
    ensures |b| == Utf8Len(c)
    ensures forall i :: 0 <= i < |b| ==> b[i] < 256
    ensures (c as int < 0x80) == (b[0] < 0x80)
  {
    var v := c as int;
    if v < 0x80 then [v]
    else if v < 0x800 then [0xC0 + v / 64, 0x80 + v % 64]
    else if v < 0x10000 then [0xE0 + v / 4096, 0x80 + (v / 64) % 64, 0x80 + v % 64]
    else [0xF0 + v / 262144, 0x80 + (v / 4096) % 64, 0x80 + (v / 64) % 64, 0x80 + v % 64]
  }

  /** strlen($s): the UTF-8 byte length of a string. */
  function ByteLen(s: string): (n: nat)
    ensures n >= |s|
  {
    if s == [] then 0 else Utf8Len(s[0]) + ByteLen(s[1..])
  }

  lemma {:induction false} ByteLenAppend(a: string, b: string)
    ensures ByteLen(a + b) == ByteLen(a) + ByteLen(b)
  {
    if a != [] {
      assert (a + b)[1..] == a[1..] + b;
      ByteLenAppend(a[1..], b);
    } else {
      assert a + b == b;
    }
  }

  /** The UTF-8 bytes of a string. */
  function Utf8(s: string): (b: seq<nat>)
    ensures |b| == ByteLen(s)
    ensures forall i :: 0 <= i < |b| ==> b[i] < 256
  {
    if s == [] then [] else Utf8Bytes(s[0]) + Utf8(s[1..])
  }

  lemma {:induction false} Utf8Append(a: string, b: string)
    ensures Utf8(a + b) == Utf8(a) + Utf8(b)
  {
    if a != [] {
      assert (a + b)[1..] == a[1..] + b;
      Utf8Append(a[1..], b);
    } else {
      assert a + b == b;
    }
  }
}
