/**
 * Cache-key derivation (ShutterbugManager.getCacheKey). The key's pre-image is
 * `prefix + "w=" + maxWidth + "&h=" + maxHeight`; its UTF-8 bytes are digested with
 * SHA-1 and the digest is rendered in hexadecimal. The digest and its rendering are
 * foreign library code and enter the model as an arbitrary function `digest`.
 */
module CacheKeys {
  import opened Images
  import opened Requests

  // ---------------------------------------------------------------------------
  // Decimal rendering of a Java int, as string concatenation does it

  function DigitChar(d: nat): (c: char)
    requires d < 10
    ensures '0' <= c <= '9'
  {
    (48 + d) as char
  }

  function DigitValue(c: char): nat
    requires '0' <= c <= '9'
  {
    c as int - 48
  }

  /** Most significant digit first, no leading zeros. */
  function NatToDecimal(n: nat): (s: string)
    ensures |s| > 0
    ensures forall i :: 0 <= i < |s| ==> '0' <= s[i] <= '9'
  {
    if n < 10 then [DigitChar(n)] else NatToDecimal(n / 10) + [DigitChar(n % 10)]
  }

  /** `"" + n` for an int: a minus sign before the digits of a negative value. */
  function Decimal(n: int): (s: string)
    ensures |s| > 0
    ensures forall i :: 0 <= i < |s| ==> s[i] == '-' || '0' <= s[i] <= '9'
  {
    if n < 0 then "-" + NatToDecimal(-n) else NatToDecimal(n)
  }

  predicate AllDigits(s: string) {
    forall i :: 0 <= i < |s| ==> '0' <= s[i] <= '9'
  }

  function ParseNat(s: string): nat
    requires AllDigits(s)
  {
    if s == [] then 0 else 10 * ParseNat(s[..|s| - 1]) + DigitValue(s[|s| - 1])
  }

  function ParseDecimal(s: string): int
    requires forall i :: 0 <= i < |s| ==> s[i] == '-' || '0' <= s[i] <= '9'
    requires |s| > 0 && (s[0] == '-' ==> AllDigits(s[1..])) && (s[0] != '-' ==> AllDigits(s))
  {
    if s[0] == '-' then -(ParseNat(s[1..]) as int) else ParseNat(s)
  }

  lemma {:induction false} NatToDecimalRoundTrip(n: nat)
    ensures ParseNat(NatToDecimal(n)) == n
  {
    if n >= 10 {
      var s := NatToDecimal(n);
      assert s[..|s| - 1] == NatToDecimal(n / 10);
      NatToDecimalRoundTrip(n / 10);
    }
  }

  /** Rendering is invertible, so distinct ints render as distinct strings. */
  lemma DecimalRoundTrip(n: int)
    ensures var s := Decimal(n);
            |s| > 0 && (s[0] == '-' ==> AllDigits(s[1..])) && (s[0] != '-' ==> AllDigits(s))
            && ParseDecimal(s) == n
  {
    if n < 0 {
      assert Decimal(n)[1..] == NatToDecimal(-n);
      NatToDecimalRoundTrip(-n);
    } else {
      NatToDecimalRoundTrip(n);
    }
  }

  lemma DecimalInjective(a: int, b: int)
    requires Decimal(a) == Decimal(b)
    ensures a == b
  {
    DecimalRoundTrip(a);
    DecimalRoundTrip(b);
  }

  // ---------------------------------------------------------------------------
  // The pre-image string

  function SizeSuffix(maxWidth: int, maxHeight: int): string {
    "w=" + Decimal(maxWidth) + "&h=" + Decimal(maxHeight)
  }

  /** The string whose bytes are digested (ShutterbugManager.java:108). */
  function PreImage(prefix: string, maxWidth: int, maxHeight: int): (key: string)
    ensures key == prefix + SizeSuffix(maxWidth, maxHeight)
    ensures |key| >= |prefix| + 7
  {
    prefix + "w=" + Decimal(maxWidth) + "&h=" + Decimal(maxHeight)
  }

  /** The first '&' of a size suffix sits right after the width's digits. */
  lemma AmpersandAfterWidth(w: int, h: int)
    ensures SizeSuffix(w, h)[2 + |Decimal(w)|] == '&'
  {
  }

  lemma {:induction false} SizeSuffixInjective(w1: int, h1: int, w2: int, h2: int)
    requires SizeSuffix(w1, h1) == SizeSuffix(w2, h2)
    ensures w1 == w2 && h1 == h2
  {
    var s := SizeSuffix(w1, h1);
    var a, b := Decimal(w1), Decimal(w2);
    if |a| < |b| {
      AmpersandAfterWidth(w1, h1);
      assert false;
    } else if |b| < |a| {
      AmpersandAfterWidth(w2, h2);
      assert false;
    }
    assert a == s[2..2 + |a|] == b;
    DecimalInjective(w1, w2);
    assert Decimal(h1) == s[5 + |a|..] == Decimal(h2);
    DecimalInjective(h1, h2);
  }

  /** For one prefix, distinct (maxWidth, maxHeight) pairs give distinct pre-images. */
  lemma PreImageInjective(prefix: string, w1: int, h1: int, w2: int, h2: int)
    requires PreImage(prefix, w1, h1) == PreImage(prefix, w2, h2)
    ensures w1 == w2 && h1 == h2
  {
    var k1, k2 := PreImage(prefix, w1, h1), PreImage(prefix, w2, h2);
    assert SizeSuffix(w1, h1) == k1[|prefix|..] == k2[|prefix|..] == SizeSuffix(w2, h2);
    SizeSuffixInjective(w1, h1, w2, h2);
  }

  // ---------------------------------------------------------------------------
  // Encodings: `key.getBytes("UTF-8")` and Java's `key.length()` (UTF-16 code units)

  function EncodeChar(c: char): (b: Bytes)
    ensures 1 <= |b| <= 4
    ensures c as int < 0x80 <==> |b| == 1
    ensures c as int < 0x80 ==> b == [c as int]
    ensures c as int >= 0x10000 <==> |b| == 4
  {
    var n := c as int;
    if n < 0x80 then [n]
    else if n < 0x800 then [0xC0 + n / 0x40, 0x80 + n % 0x40]
    else if n < 0x10000 then [0xE0 + n / 0x1000, 0x80 + (n / 0x40) % 0x40, 0x80 + n % 0x40]
    else [0xF0 + n / 0x40000, 0x80 + (n / 0x1000) % 0x40, 0x80 + (n / 0x40) % 0x40, 0x80 + n % 0x40]
  }

  function Utf8(s: string): Bytes {
    if s == [] then [] else EncodeChar(s[0]) + Utf8(s[1..])
  }

  /** Characters outside the Basic Multilingual Plane take two UTF-16 code units. */
  function Utf16Length(s: string): (n: nat)
    ensures n <= |Utf8(s)|
  {
    if s == [] then 0 else (if s[0] as int >= 0x10000 then 2 else 1) + Utf16Length(s[1..])
  }

  predicate IsAscii(s: string) {
    forall i :: 0 <= i < |s| ==> s[i] as int < 0x80
  }

  lemma {:induction false} Utf8Append(a: string, b: string)
    ensures Utf8(a + b) == Utf8(a) + Utf8(b)
  {
    if a != [] {
      assert (a + b)[0] == a[0] && (a + b)[1..] == a[1..] + b;
      Utf8Append(a[1..], b);
      assert Utf8(a + b) == EncodeChar(a[0]) + Utf8(a[1..] + b);
    } else {
      assert a + b == b;
    }
  }

  lemma {:induction false} Utf16Append(a: string, b: string)
    ensures Utf16Length(a + b) == Utf16Length(a) + Utf16Length(b)
  {
    if a != [] {
      assert (a + b)[0] == a[0] && (a + b)[1..] == a[1..] + b;
      Utf16Append(a[1..], b);
      assert Utf16Length(a + b) == (if a[0] as int >= 0x10000 then 2 else 1) + Utf16Length(a[1..] + b);
    } else {
      assert a + b == b;
    }
  }

  /** An ASCII string encodes byte for byte, and its UTF-16 length is its byte length. */
  lemma {:induction false} AsciiEncoding(s: string)
    requires IsAscii(s)
    ensures |Utf8(s)| == |s| == Utf16Length(s)
    ensures forall i :: 0 <= i < |s| ==> Utf8(s)[i] == s[i] as int
  {
    if s != [] {
      AsciiEncoding(s[1..]);
      assert Utf8(s) == [s[0] as int] + Utf8(s[1..]);
    }
  }

  lemma AsciiInjective(a: string, b: string)
    requires IsAscii(a) && IsAscii(b) && Utf8(a) == Utf8(b)
    ensures a == b
  {
    AsciiEncoding(a);
    AsciiEncoding(b);
    assert forall i :: 0 <= i < |a| ==> a[i] as int == Utf8(a)[i] == b[i] as int;
  }

  lemma SizeSuffixAscii(w: int, h: int)
    ensures IsAscii(SizeSuffix(w, h))
  {
    var s := SizeSuffix(w, h);
    assert forall i :: 0 <= i < |s| ==> s[i] in "w=&h-0123456789";
  }

  // ---------------------------------------------------------------------------
  // The bytes handed to the digest

  /**
   * `md.update(key.getBytes("UTF-8"), 0, key.length())` as written: only the first
   * `key.length()` bytes of the encoding are digested.
   */
  function HashedBytesAsWritten(key: string): (r: Bytes)
    ensures |r| == Utf16Length(key) && r == Utf8(key)[..|r|]
    ensures IsAscii(key) ==> r == Utf8(key)
  {
    if IsAscii(key) then AsciiEncoding(key); Utf8(key)[..Utf16Length(key)]
    else Utf8(key)[..Utf16Length(key)]
  }

  /** The evidently intended input to the digest: the whole UTF-8 encoding of the key. */
  function HashedBytes(key: string): (r: Bytes)
    ensures IsAscii(key) ==> r == HashedBytesAsWritten(key)
  {
    Utf8(key)
  }

  /**
   * For one prefix, distinct (maxWidth, maxHeight) pairs put distinct bytes in front
   * of the digest, whatever characters the prefix holds.
   */
  lemma HashedBytesInjective(prefix: string, w1: int, h1: int, w2: int, h2: int)
    requires HashedBytes(PreImage(prefix, w1, h1)) == HashedBytes(PreImage(prefix, w2, h2))
    ensures w1 == w2 && h1 == h2
  {
    var s1, s2 := SizeSuffix(w1, h1), SizeSuffix(w2, h2);
    Utf8Append(prefix, s1);
    Utf8Append(prefix, s2);
    var p := Utf8(prefix);
    assert Utf8(s1) == (p + Utf8(s1))[|p|..] == (p + Utf8(s2))[|p|..] == Utf8(s2);
    SizeSuffixAscii(w1, h1);
    SizeSuffixAscii(w2, h2);
    AsciiInjective(s1, s2);
    SizeSuffixInjective(w1, h1, w2, h2);
  }

  /** The pre-image for a one-character prefix encodes as that character's bytes, then the suffix's. */
  lemma EncodeOneCharPrefix(c: char, w: int, h: int)
    requires c as int < 0x10000
    ensures Utf8(PreImage([c], w, h)) == EncodeChar(c) + Utf8(SizeSuffix(w, h))
    ensures Utf16Length(PreImage([c], w, h)) == 1 + Utf16Length(SizeSuffix(w, h))
  {
    var k := PreImage([c], w, h);
    assert k[0] == c && k[1..] == SizeSuffix(w, h);
  }

  /** The size suffixes for heights 0 and 1 differ only in their seventh and last byte. */
  lemma SuffixesDifferLast()
    ensures var s0, s1 := SizeSuffix(0, 0), SizeSuffix(0, 1);
            && |Utf8(s0)| == |Utf8(s1)| == Utf16Length(s0) == Utf16Length(s1) == 7
            && Utf8(s0)[..6] == Utf8(s1)[..6] && Utf8(s0)[6] != Utf8(s1)[6]
  {
    var s0, s1 := SizeSuffix(0, 0), SizeSuffix(0, 1);
    assert Decimal(0) == "0" && Decimal(1) == "1";
    assert s0 == "w=0&h=0" && s1 == "w=0&h=1";
    SizeSuffixAscii(0, 0);
    SizeSuffixAscii(0, 1);
    AsciiEncoding(s0);
    AsciiEncoding(s1);
  }

  /**
   * As written, a prefix holding one two-byte character ("é") makes the digest skip
   * the last digit of the height: heights 0 and 1 are digested identically.
   */
  lemma HashedBytesAsWrittenCollide()
    ensures HashedBytesAsWritten(PreImage("\U{E9}", 0, 0)) == HashedBytesAsWritten(PreImage("\U{E9}", 0, 1))
    ensures HashedBytes(PreImage("\U{E9}", 0, 0)) != HashedBytes(PreImage("\U{E9}", 0, 1))
  {
    var e := EncodeChar('\U{E9}');
    assert |e| == 2;
    SuffixesDifferLast();
    EncodeOneCharPrefix('\U{E9}', 0, 0);
    EncodeOneCharPrefix('\U{E9}', 0, 1);
    var u0, u1 := Utf8(SizeSuffix(0, 0)), Utf8(SizeSuffix(0, 1));
    assert (e + u0)[..8] == e + u0[..6];
    assert (e + u1)[..8] == e + u1[..6];
    assert (e + u0)[8] == u0[6] && (e + u1)[8] == u1[6];
  }

  // ---------------------------------------------------------------------------
  // The key

  /**
   * `getCacheKey(request, maxWidth, maxHeight)`, with the digest-and-render step
   * given as `digest`. The NoSuchAlgorithm / UnsupportedEncoding branches returning
   * null cannot be taken on a Java platform, which must provide SHA-1 and UTF-8.
   */
  function CacheKey(request: DownloadRequest, maxWidth: int, maxHeight: int, digest: Bytes -> string): (key: string)
    ensures key == digest(HashedBytes(PreImage(request.CacheKeyPrefix(), maxWidth, maxHeight)))
  {
    digest(Utf8(request.CacheKeyPrefix() + "w=" + Decimal(maxWidth) + "&h=" + Decimal(maxHeight)))
  }

  /**
   * For one request prefix and a digest without collisions, distinct size pairs give
   * distinct cache keys.
   */
  lemma CacheKeyDistinctSizes(r: DownloadRequest, w1: int, h1: int, w2: int, h2: int, digest: Bytes -> string)
    requires forall x, y :: digest(x) == digest(y) ==> x == y
    requires (w1, h1) != (w2, h2)
    ensures CacheKey(r, w1, h1, digest) != CacheKey(r, w2, h2, digest)
  {
    if CacheKey(r, w1, h1, digest) == CacheKey(r, w2, h2, digest) {
      HashedBytesInjective(r.CacheKeyPrefix(), w1, h1, w2, h2);
    }
  }
}
