/**
 * Encrypted credentials (app/src/Services/CryptoService.php): the payload is
 * base64(iv ‖ HMAC-SHA256(ciphertext) ‖ ciphertext), an encrypt-then-MAC
 * layout over AES-256-CBC. The cipher, the MAC and the random IV are
 * parameters; the framing, the base64 alphabet of section 4 of RFC 4648
 * and the checks decrypt makes are modelled.
 */
module CryptoService {
  import opened Wrappers

  type Byte = b: int | 0 <= b < 256

  /** openssl_cipher_iv_length('aes-256-cbc'). */
  const IvLength: nat := 16
  /** The length of a raw HMAC-SHA256 digest. */
  const MacLength: nat := 32

  const KeyMissing := "ENCRYPTION_KEY is not configured"
  const EncryptFailed := "openssl_encrypt failed"
  const BadBase64 := "Invalid encrypted payload: base64 decode failed"
  const IntegrityFailed := "Integrity check failed"
  const DecryptFailed := "openssl_decrypt failed"

  // ---------------------------------------------------------------- base64 (section 4 of RFC 4648)

  type Sextet = n: int | 0 <= n < 64

  /** The character of a 6-bit value in the base64 alphabet A-Z a-z 0-9 + /. */
  function SextetChar(n: Sextet): char {
    if n < 26 then ('A' as int + n) as char
    else if n < 52 then ('a' as int + n - 26) as char
    else if n < 62 then ('0' as int + n - 52) as char
    else if n == 62 then '+'
    else '/'
  }

  /** The value of a base64 alphabet character; None for any other character. */
  function CharSextet(c: char): Option<Sextet> {
    if 'A' <= c <= 'Z' then Some(c as int - 'A' as int)
    else if 'a' <= c <= 'z' then Some(c as int - 'a' as int + 26)
    else if '0' <= c <= '9' then Some(c as int - '0' as int + 52)
    else if c == '+' then Some(62)
    else if c == '/' then Some(63)
    else None
  }

  lemma CharOfSextet(n: Sextet)
    ensures CharSextet(SextetChar(n)) == Some(n) && SextetChar(n) != '='
  {
  }

  /** The 6-bit groups of the bytes: four per three bytes, two or three for a shorter tail. */
  function Sextets(b: seq<Byte>): (xs: seq<Sextet>)
    ensures |xs| == 4 * (|b| / 3) + (if |b| % 3 == 0 then 0 else |b| % 3 + 1)
    decreases |b|
  {
    if |b| == 0 then []
    else if |b| == 1 then [b[0] / 4, (b[0] % 4) * 16]
    else if |b| == 2 then [b[0] / 4, (b[0] % 4) * 16 + b[1] / 16, (b[1] % 16) * 4]
    else [b[0] / 4, (b[0] % 4) * 16 + b[1] / 16, (b[1] % 16) * 4 + b[2] / 64, b[2] % 64] + Sextets(b[3..])
  }

  function Chars(xs: seq<Sextet>): (s: string)
    ensures |s| == |xs|
    decreases |xs|
  {
    if xs == [] then "" else [SextetChar(xs[0])] + Chars(xs[1..])
  }

  function Pad(n: nat): (s: string)
    ensures |s| == n && forall i :: 0 <= i < n ==> s[i] == '='
  {
    if n == 0 then "" else "=" + Pad(n - 1)
  }

  /** base64_encode: the alphabet characters, padded with '=' to a multiple of four. */
  function Base64Encode(b: seq<Byte>): (s: string)
    ensures |s| % 4 == 0
  {
    Chars(Sextets(b)) + Pad(if |b| % 3 == 0 then 0 else 3 - |b| % 3)
  }

  /**
   * The characters of a payload, read as base64_decode($s, true) reads them:
   * the values of the alphabet characters and the number of '=' after them;
   * None for a character outside the alphabet or data after a '='.
   */
  function Scan(s: string): (r: Option<(seq<Sextet>, nat)>)
    decreases |s|
  {
    if s == [] then Some(([], 0))
    else if s[0] == '=' then
      if forall i :: 0 <= i < |s| ==> s[i] == '=' then Some(([], |s|)) else None
    else
      var v := CharSextet(s[0]);
      var rest := Scan(s[1..]);
      if v.None? || rest.None? then None else Some(([v.value] + rest.value.0, rest.value.1))
  }

  /** The bytes of the 6-bit groups; a lone trailing group carries no byte. */
  function FromSextets(xs: seq<Sextet>): (b: seq<Byte>)
    decreases |xs|
  {
    if |xs| < 2 then []
    else
      var b0: Byte := xs[0] as int * 4 + xs[1] as int / 16;
      if |xs| == 2 then [b0]
      else
        var b1: Byte := (xs[1] as int % 16) * 16 + xs[2] as int / 4;
        if |xs| == 3 then [b0, b1]
        else [b0, b1, (xs[2] as int % 4) * 64 + xs[3] as int] + FromSextets(xs[4..])
  }

  /**
   * base64_decode($s, true): fails on a character outside the alphabet, on
   * data after padding, on a lone character in the last group, and on more
   * than two '=' or a padded length that is not a multiple of four; padding
   * may be left out.
   */
  function Base64Decode(s: string): (r: Option<seq<Byte>>)
    ensures Scan(s).None? ==> r.None?
  {
    var scanned := Scan(s);
    if scanned.None? then None
    else
      var (xs, padding) := scanned.value;
      if |xs| % 4 == 1 then None
      else if padding > 0 && (padding > 2 || (|xs| + padding) % 4 != 0) then None
      else Some(FromSextets(xs))
  }

  /** A payload holding a character that is neither in the alphabet nor '=' is refused. */
  lemma {:induction false} ForeignCharRefused(s: string, i: nat)
    requires i < |s| && CharSextet(s[i]).None? && s[i] != '='
    ensures Scan(s).None? && Base64Decode(s).None?
    decreases |s|
  {
    if s[0] != '=' && i > 0 {
      ForeignCharRefused(s[1..], i - 1);
    }
  }

  lemma {:induction false} ScanEncoded(xs: seq<Sextet>, n: nat)
    ensures Scan(Chars(xs) + Pad(n)) == Some((xs, n))
    decreases |xs|
  {
    if xs == [] {
      assert Chars(xs) + Pad(n) == Pad(n);
    } else {
      CharOfSextet(xs[0]);
      var s := Chars(xs) + Pad(n);
      assert s[0] == SextetChar(xs[0]) && s[1..] == Chars(xs[1..]) + Pad(n);
      ScanEncoded(xs[1..], n);
      assert [xs[0]] + xs[1..] == xs;
    }
  }

  /** One group of three bytes comes back from its four 6-bit values. */
  lemma GroupRoundTrip(b0: Byte, b1: Byte, b2: Byte)
    ensures var s0, s1, s2, s3 := b0 / 4, (b0 % 4) * 16 + b1 / 16, (b1 % 16) * 4 + b2 / 64, b2 % 64;
            s0 * 4 + s1 / 16 == b0 && (s1 % 16) * 16 + s2 / 4 == b1 && (s2 % 4) * 64 + s3 == b2
  {
    var s1 := (b0 % 4) * 16 + b1 / 16;
    var s2 := (b1 % 16) * 4 + b2 / 64;
    assert s1 / 16 == b0 % 4 && s1 % 16 == b1 / 16;
    assert s2 / 4 == b1 % 16 && s2 % 4 == b2 / 64;
  }

  lemma {:induction false} FromSextetsOfBytes(b: seq<Byte>)
    ensures FromSextets(Sextets(b)) == b
    decreases |b|
  {
    if |b| >= 3 {
      var xs := Sextets(b);
      assert xs[4..] == Sextets(b[3..]);
      FromSextetsOfBytes(b[3..]);
      assert b == b[..3] + b[3..];
    }
    if |b| >= 1 {
      GroupRoundTrip(b[0], if |b| > 1 then b[1] else 0, if |b| > 2 then b[2] else 0);
    }
  }

  /** base64_decode in strict mode reads back what base64_encode wrote. */
  lemma Base64RoundTrip(b: seq<Byte>)
    ensures Base64Decode(Base64Encode(b)) == Some(b)
  {
    var padding := if |b| % 3 == 0 then 0 else 3 - |b| % 3;
    FromSextetsOfBytes(b);
    PaddingFits(|b|);
    ScanEncoded(Sextets(b), padding);
  }

  /** The encoder's group count and padding pass the decoder's length checks. */
  lemma PaddingFits(len: nat)
    ensures var n := 4 * (len / 3) + (if len % 3 == 0 then 0 else len % 3 + 1);
            var p := if len % 3 == 0 then 0 else 3 - len % 3;
            n % 4 != 1 && (p > 0 ==> p <= 2 && (n + p) % 4 == 0)
  {
    var q, r := len / 3, len % 3;
    if r == 0 {
      assert (4 * q) % 4 == 0;
    } else {
      assert (4 * q + r + 1) % 4 == r + 1;
      assert (4 * q + 4) % 4 == 0;
    }
  }

  // ---------------------------------------------------------------- framing

  /**
   * The primitives: openssl_encrypt and openssl_decrypt with AES-256-CBC
   * (None stands for false) and hash_hmac('sha256', ..., true).
   */
  datatype Cipher = Cipher(
    encrypt: (seq<Byte>, string, seq<Byte>) -> Option<seq<Byte>>,
    decrypt: (seq<Byte>, string, seq<Byte>) -> Option<seq<Byte>>,
    hmac: (seq<Byte>, string) -> seq<Byte>)

  /** The MAC always has its fixed length. */
  ghost predicate MacSized(c: Cipher) {
    forall m, k :: |c.hmac(m, k)| == MacLength
  }

  /** Decryption undoes encryption under the same key and IV. */
  ghost predicate Inverts(c: Cipher, key: string, iv: seq<Byte>) {
    forall p :: c.encrypt(p, key, iv).Some? ==> c.decrypt(c.encrypt(p, key, iv).value, key, iv) == Some(p)
  }

  /** substr($s, $start, $length) for offsets at or past the start; a start past the end gives ''. */
  function Substr(s: seq<Byte>, start: nat, length: nat): (r: seq<Byte>)
    ensures |r| <= length
    ensures start + length <= |s| ==> r == s[start..start + length]
  {
    if start >= |s| then [] else if start + length <= |s| then s[start..start + length] else s[start..]
  }

  /** substr($s, $start). */
  function SubstrFrom(s: seq<Byte>, start: nat): (r: seq<Byte>)
    ensures start <= |s| ==> r == s[start..]
  {
    if start >= |s| then [] else s[start..]
  }

  /**
   * encrypt: the key must be set; `iv` is the random_bytes draw. The payload
   * is the base64 of iv ‖ mac ‖ ciphertext.
   */
  function Encrypt(plaintext: seq<Byte>, key: string, iv: seq<Byte>, c: Cipher): (r: Result<string>)
    ensures key == "" ==> r == Err(KeyMissing)
    ensures key != "" && c.encrypt(plaintext, key, iv).None? ==> r == Err(EncryptFailed)
    ensures r.Ok? ==> var ct := c.encrypt(plaintext, key, iv).value;
                      r.value == Base64Encode(iv + c.hmac(ct, key) + ct)
  {
    if key == "" then Err(KeyMissing)
    else
      var ciphertext := c.encrypt(plaintext, key, iv);
      if ciphertext.None? then Err(EncryptFailed)
      else Ok(Base64Encode(iv + c.hmac(ciphertext.value, key) + ciphertext.value))
  }

  /** The three parts decrypt cuts a decoded payload into: at IvLength and at IvLength + MacLength. */
  function Parts(raw: seq<Byte>): (seq<Byte>, seq<Byte>, seq<Byte>) {
    (Substr(raw, 0, IvLength), Substr(raw, IvLength, MacLength), SubstrFrom(raw, IvLength + MacLength))
  }

  /** Cutting iv ‖ mac ‖ ciphertext at the two offsets gives back the three parts. */
  lemma PartsOfFrame(iv: seq<Byte>, mac: seq<Byte>, ct: seq<Byte>)
    requires |iv| == IvLength && |mac| == MacLength
    ensures Parts(iv + mac + ct) == (iv, mac, ct)
  {
    var raw := iv + mac + ct;
    assert raw[0..IvLength] == iv;
    assert raw[IvLength..IvLength + MacLength] == mac;
    assert raw[IvLength + MacLength..] == ct;
  }

  /**
   * decrypt: the key must be set and the payload strict base64; the MAC over
   * the ciphertext part must equal the stored one before anything is
   * decrypted.
   */
  function Decrypt(payload: string, key: string, c: Cipher): (r: Result<seq<Byte>>)
    ensures key == "" ==> r == Err(KeyMissing)
    ensures key != "" && Base64Decode(payload).None? ==> r == Err(BadBase64)
    ensures r.Ok? ==> Base64Decode(payload).Some?
                      && var (iv, mac, ct) := Parts(Base64Decode(payload).value);
                      && mac == c.hmac(ct, key) && c.decrypt(ct, key, iv) == Some(r.value)
    ensures key != "" && Base64Decode(payload).Some? ==>
              var (iv, mac, ct) := Parts(Base64Decode(payload).value);
              (r == Err(IntegrityFailed) <==> mac != c.hmac(ct, key))
  {
    if key == "" then Err(KeyMissing)
    else
      var raw := Base64Decode(payload);
      if raw.None? then Err(BadBase64)
      else
        var (iv, mac, ciphertext) := Parts(raw.value);
        if mac != c.hmac(ciphertext, key) then Err(IntegrityFailed)
        else
          var plain := c.decrypt(ciphertext, key, iv);
          if plain.None? then Err(DecryptFailed) else Ok(plain.value)
  }

  /** A MAC mismatch is reported without consulting the cipher at all. */
  lemma MismatchNeverDecrypts(payload: string, key: string, c: Cipher, other: (seq<Byte>, string, seq<Byte>) -> Option<seq<Byte>>)
    requires Decrypt(payload, key, c) == Err(IntegrityFailed)
    ensures Decrypt(payload, key, c.(decrypt := other)) == Err(IntegrityFailed)
  {
  }

  /** decrypt(encrypt(p)) == p when the cipher inverts under the same key and IV. */
  lemma RoundTrip(plaintext: seq<Byte>, key: string, iv: seq<Byte>, c: Cipher)
    requires |iv| == IvLength && MacSized(c) && Inverts(c, key, iv)
    requires Encrypt(plaintext, key, iv, c).Ok?
    ensures Decrypt(Encrypt(plaintext, key, iv, c).value, key, c) == Ok(plaintext)
  {
    var ct := c.encrypt(plaintext, key, iv).value;
    var mac := c.hmac(ct, key);
    Base64RoundTrip(iv + mac + ct);
    PartsOfFrame(iv, mac, ct);
  }
}
