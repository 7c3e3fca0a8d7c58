/** The password rule of `User.set_password` / `User.verify_password`:
    the UTF-8 bytes of the password are handed to bcrypt unchanged when they
    fit bcrypt's 72-byte input limit, and are otherwise replaced by the
    64-character lower-case hex SHA-256 digest of those bytes. bcrypt and
    SHA-256 themselves are foreign libraries and enter the model only
    through the laws a `Crypto` value must obey. */
module Passwords {

  newtype byte = x: int | 0 <= x < 256

  /** bcrypt's input limit. */
  const BcryptMaxBytes: nat := 72

  /** UTF-8 encoding of one Unicode scalar value (Python `str.encode("utf-8")`). */
  function EncodeChar(c: char): (r: seq<byte>)
    ensures 1 <= |r| <= 4
    ensures (|r| == 1) <==> (c as int < 0x80)
    ensures |r| == 1 ==> r[0] as int == c as int
    ensures LeadLength(r[0]) == |r|
    ensures forall i :: 1 <= i < |r| ==> 0x80 <= r[i] < 0xC0
    ensures DecodeChar(r) == c as int
  {
    var cp := c as int;
    if cp < 0x80 then [cp as byte]
    else if cp < 0x800 then
      Split64(cp);
      [(0xC0 + cp / 64) as byte, (0x80 + cp % 64) as byte]
    else if cp < 0x10000 then
      Split64(cp);
      Split64(cp / 64);
      [(0xE0 + cp / 4096) as byte, (0x80 + (cp / 64) % 64) as byte, (0x80 + cp % 64) as byte]
    else
      Split64(cp);
      Split64(cp / 64);
      Split64(cp / 4096);
      [(0xF0 + cp / 262144) as byte, (0x80 + (cp / 4096) % 64) as byte,
       (0x80 + (cp / 64) % 64) as byte, (0x80 + cp % 64) as byte]
  }

  /** Six-bit groups: `n` is its quotient by 64 times 64 plus its remainder,
      and the quotients by 4096 and 262144 are quotients of the quotient. */
  lemma Split64(n: nat)
    ensures n == (n / 64) * 64 + n % 64 && 0 <= n % 64 < 64
    ensures n / 4096 == (n / 64) / 64 && n / 262144 == (n / 4096) / 64
  {
  }

  /** The length of a UTF-8 sequence as its lead byte announces it; 0 for a
      byte that cannot lead (a continuation byte, or 0xF8 and above). */
  function LeadLength(b: byte): nat {
    if b < 0x80 then 1
    else if b < 0xC0 then 0
    else if b < 0xE0 then 2
    else if b < 0xF0 then 3
    else if b < 0xF8 then 4
    else 0
  }

  /** The code point a one- to four-byte UTF-8 sequence stands for. */
  function DecodeChar(r: seq<byte>): int
    requires 1 <= |r| <= 4
  {
    if |r| == 1 then r[0] as int
    else if |r| == 2 then (r[0] as int - 0xC0) * 64 + (r[1] as int - 0x80)
    else if |r| == 3 then
      (r[0] as int - 0xE0) * 4096 + (r[1] as int - 0x80) * 64 + (r[2] as int - 0x80)
    else
      (r[0] as int - 0xF0) * 262144 + (r[1] as int - 0x80) * 4096
        + (r[2] as int - 0x80) * 64 + (r[3] as int - 0x80)
  }

  function Utf8Encode(s: string): (r: seq<byte>)
    ensures |s| <= |r| <= 4 * |s|
  {
    if s == [] then [] else EncodeChar(s[0]) + Utf8Encode(s[1..])
  }

  /** Every byte of an encoding is below 0xF8: UTF-8 lead bytes stop at
      0xF4 and continuation bytes at 0xBF. */
  lemma {:induction false} Utf8BytesBelowF8(s: string)
    ensures forall i :: 0 <= i < |Utf8Encode(s)| ==> Utf8Encode(s)[i] < 0xF8
  {
    if s != [] {
      Utf8BytesBelowF8(s[1..]);
      var e := EncodeChar(s[0]);
      assert LeadLength(e[0]) != 0;
      forall i | 0 <= i < |Utf8Encode(s)| ensures Utf8Encode(s)[i] < 0xF8 {
        if i >= |e| {
          assert Utf8Encode(s)[i] == Utf8Encode(s[1..])[i - |e|];
        }
      }
    }
  }

  /** Distinct strings have distinct encodings. */
  lemma {:induction false} Utf8Injective(s: string, t: string)
    requires Utf8Encode(s) == Utf8Encode(t)
    ensures s == t
  {
    if s != [] && t != [] {
      var es, et := EncodeChar(s[0]), EncodeChar(t[0]);
      var x := Utf8Encode(s);
      assert x == es + Utf8Encode(s[1..]) && x == et + Utf8Encode(t[1..]);
      assert es[0] == x[0] == et[0];
      assert |es| == |et|;
      assert es == x[..|es|] == et;
      assert Utf8Encode(s[1..]) == x[|es|..] == Utf8Encode(t[1..]);
      Utf8Injective(s[1..], t[1..]);
      assert s == [s[0]] + s[1..] && t == [t[0]] + t[1..];
    }
  }

  predicate IsAscii(s: string) {
    forall i :: 0 <= i < |s| ==> s[i] as int < 0x80
  }

  predicate IsAsciiBytes(b: seq<byte>) {
    forall i :: 0 <= i < |b| ==> b[i] < 0x80
  }

  /** An ASCII string encodes to one byte per character, each its code point. */
  lemma {:induction false} Utf8EncodeAscii(s: string)
    requires IsAscii(s)
    ensures |Utf8Encode(s)| == |s|
    ensures forall i :: 0 <= i < |s| ==> Utf8Encode(s)[i] as int == s[i] as int
  {
    if s != [] {
      Utf8EncodeAscii(s[1..]);
    }
  }

  /** bytes.decode("utf-8") on bytes that are all ASCII. */
  function AsciiDecode(b: seq<byte>): (r: string)
    requires IsAsciiBytes(b)
    ensures |r| == |b| && IsAscii(r)
    ensures forall i :: 0 <= i < |b| ==> r[i] as int == b[i] as int
  {
    if b == [] then [] else [b[0] as char] + AsciiDecode(b[1..])
  }

  /** Encoding what was decoded from ASCII gives the same bytes back. */
  lemma AsciiRoundTrip(b: seq<byte>)
    requires IsAsciiBytes(b)
    ensures Utf8Encode(AsciiDecode(b)) == b
  {
    var s := AsciiDecode(b);
    Utf8EncodeAscii(s);
  }

  predicate IsHexDigit(c: char) {
    '0' <= c <= '9' || 'a' <= c <= 'f'
  }

  /** The value of a lower-case hex digit. */
  function HexValue(c: char): int {
    if c <= '9' then c as int - '0' as int else c as int - 'a' as int + 10
  }

  /** The lower-case hex digit for `n`. */
  function HexChar(n: int): (c: char)
    requires 0 <= n < 16
    ensures IsHexDigit(c) && HexValue(c) == n
  {
    if n < 10 then ('0' as int + n) as char else ('a' as int + n - 10) as char
  }

  /** The two hex digits of one byte, high nibble first. */
  function HexPair(b: byte): (r: string)
    ensures |r| == 2 && IsHexDigit(r[0]) && IsHexDigit(r[1])
    ensures HexValue(r[0]) * 16 + HexValue(r[1]) == b as int
  {
    [HexChar(b as int / 16), HexChar(b as int % 16)]
  }

  /** `hashlib....hexdigest()`: two lower-case hex digits per byte. */
  function HexDigest(d: seq<byte>): (r: string)
    ensures |r| == 2 * |d|
    ensures forall i :: 0 <= i < |r| ==> IsHexDigit(r[i])
  {
    if d == [] then [] else HexPair(d[0]) + HexDigest(d[1..])
  }

  /** Digits `2i` and `2i + 1` of the hex string spell byte `i`. */
  lemma {:induction false} HexDigestSpells(d: seq<byte>)
    ensures forall i :: 0 <= i < |d| ==> HexPair(d[i]) == HexDigest(d)[2 * i..2 * i + 2]
  {
    if d != [] {
      HexDigestSpells(d[1..]);
      var r, rest := HexDigest(d), HexDigest(d[1..]);
      assert r == HexPair(d[0]) + rest;
      forall i | 0 <= i < |d| ensures HexPair(d[i]) == r[2 * i..2 * i + 2] {
        if i > 0 {
          assert d[i] == d[1..][i - 1];
          assert r[2 * i..2 * i + 2] == rest[2 * (i - 1)..2 * (i - 1) + 2];
        }
      }
    }
  }

  /** Distinct digests have distinct hex strings. */
  lemma HexDigestInjective(d: seq<byte>, e: seq<byte>)
    requires HexDigest(d) == HexDigest(e)
    ensures d == e
  {
    assert |d| == |e|;
    HexDigestSpells(d);
    HexDigestSpells(e);
    forall i | 0 <= i < |d| ensures d[i] == e[i] {
      var p, q := HexPair(d[i]), HexPair(e[i]);
      assert p == q;
      assert d[i] as int == HexValue(p[0]) * 16 + HexValue(p[1]);
    }
  }

  /** The bcrypt and SHA-256 entry points the source calls, as values. */
  datatype CryptoFns = CryptoFns(
    sha256: seq<byte> -> seq<byte>,
    hashpw: (seq<byte>, seq<byte>) -> seq<byte>,
    checkpw: (seq<byte>, seq<byte>) -> bool)

  /** The laws the model relies on: a SHA-256 digest is 32 bytes, bcrypt's
      output is ASCII (the `$2b$...` modular-crypt format), and checking a
      password against its own bcrypt hash succeeds. */
  ghost predicate Lawful(c: CryptoFns) {
    && (forall x :: |c.sha256(x)| == 32)
    && (forall p, s :: IsAsciiBytes(c.hashpw(p, s)))
    && (forall p, s :: c.checkpw(p, c.hashpw(p, s)))
  }

  type Crypto = c: CryptoFns | Lawful(c)
    witness CryptoFns(x => seq(32, i => 0), (p, s) => [], (p, h) => true)

  /** The bytes given to bcrypt for `password`, on both the set and the verify path. */
  function PreHash(c: Crypto, password: string): (r: seq<byte>)
    ensures |r| <= BcryptMaxBytes
    ensures |Utf8Encode(password)| <= BcryptMaxBytes ==> r == Utf8Encode(password)
    ensures |Utf8Encode(password)| > BcryptMaxBytes ==>
      |r| == 64 && r == Utf8Encode(HexDigest(c.sha256(Utf8Encode(password))))
  {
    var bytes := Utf8Encode(password);
    if |bytes| > BcryptMaxBytes then
      var hex := HexDigest(c.sha256(bytes));
      HexIsAscii(hex);
      Utf8EncodeAscii(hex);
      Utf8Encode(hex)
    else bytes
  }

  lemma HexIsAscii(h: string)
    requires forall i :: 0 <= i < |h| ==> IsHexDigit(h[i])
    ensures IsAscii(h)
  {
  }

  /** The `password_hash` column value `set_password` stores for `password`
      with the salt `bcrypt.gensalt()` returned. */
  function StoredHash(c: Crypto, password: string, salt: seq<byte>): (h: string)
    ensures IsAscii(h)
  {
    AsciiDecode(c.hashpw(PreHash(c, password), salt))
  }

  /** What `verify_password` computes against the stored hash. */
  function Matches(c: Crypto, password: string, stored: string): bool {
    c.checkpw(PreHash(c, password), Utf8Encode(stored))
  }

  /** Set-then-verify round trip: both paths apply the same transform, for
      passwords of every length. */
  lemma {:induction false} SetThenVerify(c: Crypto, password: string, salt: seq<byte>)
    ensures Matches(c, password, StoredHash(c, password, salt))
  {
    var b := c.hashpw(PreHash(c, password), salt);
    AsciiRoundTrip(b);
  }

  /** A bcrypt that accepts a candidate only when it is the very input the
      hash was made from. The laws above leave this open; it is assumed
      only where a lemma says so. */
  ghost predicate BcryptExact(c: CryptoFns) {
    forall b, s, q :: c.checkpw(q, c.hashpw(b, s)) ==> q == b
  }

  /** With an exact bcrypt, the stored hash of `p` accepts exactly the
      candidates whose pre-hash bytes are those of `p`. */
  lemma MatchesExactly(c: Crypto, p: string, q: string, salt: seq<byte>)
    requires BcryptExact(c)
    ensures Matches(c, q, StoredHash(c, p, salt)) <==> PreHash(c, q) == PreHash(c, p)
  {
    AsciiRoundTrip(c.hashpw(PreHash(c, p), salt));
  }

  /** The hex SHA-256 digest of a password longer than 72 bytes is a second
      password, different from the first, that the stored hash accepts. */
  lemma DigestAlsoAccepted(c: Crypto, p: string, salt: seq<byte>)
    requires |Utf8Encode(p)| > BcryptMaxBytes
    ensures HexDigest(c.sha256(Utf8Encode(p))) != p
    ensures Matches(c, HexDigest(c.sha256(Utf8Encode(p))), StoredHash(c, p, salt))
  {
    var h := HexDigest(c.sha256(Utf8Encode(p)));
    HexIsAscii(h);
    Utf8EncodeAscii(h);
    assert PreHash(c, h) == Utf8Encode(h) == PreHash(c, p);
    SetThenVerify(c, p, salt);
  }

  /** A byte no UTF-8 encoding contains; it marks a pre-hashed password. */
  const LongPasswordMarker: byte := 0xFF

  /** The pre-hash with the two cases kept apart: a password longer than 72
      bytes is given to bcrypt as the marker followed by its hex digest, so
      that no password short enough to be passed unchanged can produce the
      same bytes. Short passwords are treated as before. */
  function SeparatedPreHash(c: Crypto, password: string): (r: seq<byte>)
    ensures |r| <= BcryptMaxBytes
    ensures |Utf8Encode(password)| <= BcryptMaxBytes ==> r == PreHash(c, password)
    ensures |Utf8Encode(password)| > BcryptMaxBytes ==> |r| == 65 && r[0] == LongPasswordMarker && r[1..] == PreHash(c, password)
  {
    if |Utf8Encode(password)| > BcryptMaxBytes then [LongPasswordMarker] + PreHash(c, password)
    else PreHash(c, password)
  }

  function SeparatedStoredHash(c: Crypto, password: string, salt: seq<byte>): (h: string)
    ensures IsAscii(h)
  {
    AsciiDecode(c.hashpw(SeparatedPreHash(c, password), salt))
  }

  function SeparatedMatches(c: Crypto, password: string, stored: string): bool {
    c.checkpw(SeparatedPreHash(c, password), Utf8Encode(stored))
  }

  /** Two passwords whose encodings differ do not share a SHA-256 digest. */
  predicate NoDigestCollision(c: Crypto, p: string, q: string) {
    c.sha256(Utf8Encode(p)) == c.sha256(Utf8Encode(q)) ==> Utf8Encode(p) == Utf8Encode(q)
  }

  /** The separated pre-hash tells passwords apart unless SHA-256 collides. */
  lemma SeparatedPreHashInjective(c: Crypto, p: string, q: string)
    requires NoDigestCollision(c, p, q)
    requires SeparatedPreHash(c, p) == SeparatedPreHash(c, q)
    ensures p == q
  {
    var bp, bq := Utf8Encode(p), Utf8Encode(q);
    var r := SeparatedPreHash(c, p);
    if |bp| > BcryptMaxBytes && |bq| > BcryptMaxBytes {
      var hp, hq := HexDigest(c.sha256(bp)), HexDigest(c.sha256(bq));
      assert Utf8Encode(hp) == r[1..] == Utf8Encode(hq);
      Utf8Injective(hp, hq);
      HexDigestInjective(c.sha256(bp), c.sha256(bq));
      Utf8Injective(p, q);
    } else if |bp| > BcryptMaxBytes {
      Utf8BytesBelowF8(q);
      assert false;
    } else if |bq| > BcryptMaxBytes {
      Utf8BytesBelowF8(p);
      assert false;
    } else {
      Utf8Injective(p, q);
    }
  }

  /** The separated scheme keeps the set-then-verify round trip ... */
  lemma SeparatedSetThenVerify(c: Crypto, password: string, salt: seq<byte>)
    ensures SeparatedMatches(c, password, SeparatedStoredHash(c, password, salt))
  {
    AsciiRoundTrip(c.hashpw(SeparatedPreHash(c, password), salt));
  }

  /** ... and, with an exact bcrypt, rejects every other password whose
      SHA-256 digest does not collide with the stored one's. */
  lemma SeparatedRejects(c: Crypto, p: string, q: string, salt: seq<byte>)
    requires BcryptExact(c) && NoDigestCollision(c, p, q)
    requires q != p
    ensures !SeparatedMatches(c, q, SeparatedStoredHash(c, p, salt))
  {
    AsciiRoundTrip(c.hashpw(SeparatedPreHash(c, p), salt));
    if SeparatedMatches(c, q, SeparatedStoredHash(c, p, salt)) {
      SeparatedPreHashInjective(c, p, q);
    }
  }
}
