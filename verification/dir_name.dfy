/** The directory name of `mkdir` (Proj4.java:74-79):
    `Integer.toHexString(s.hashCode())`. */
module DirName {
  import opened JavaStrings

  /** 2^32: `int` arithmetic in Java wraps modulo this. */
  const Modulus: int := 0x1_0000_0000
  const HalfModulus: int := 0x8000_0000

  /** The value of a Java `int`. */
  predicate IsInt32(x: int)
  {
    -HalfModulus <= x < HalfModulus
  }

  /** The Java `int` that an exact integer result wraps to. */
  function Wrap(x: int): (r: int)
    ensures IsInt32(r)
    ensures (r - x) % Modulus == 0
  {
    var m := x % Modulus;
    if m < HalfModulus then m else m - Modulus
  }

  /** The UTF-16 code units of a string, the units Java's `String` holds:
      characters above U+FFFF become a surrogate pair. */
  function Utf16(s: String): (units: seq<int>)
    ensures |units| >= |s|
    ensures forall k :: 0 <= k < |units| ==> 0 <= units[k] < 0x1_0000
  {
    if |s| == 0 then []
    else
      var c := s[|s| - 1] as int;
      var last := if c < 0x1_0000 then [c]
        else [0xD800 + (c - 0x1_0000) / 0x400, 0xDC00 + (c - 0x1_0000) % 0x400];
      Utf16(s[..|s| - 1]) + last
  }

  /** A high (leading) surrogate code unit. */
  predicate IsHighSurrogate(u: int)
  {
    0xD800 <= u < 0xDC00
  }

  /** A low (trailing) surrogate code unit. */
  predicate IsLowSurrogate(u: int)
  {
    0xDC00 <= u < 0xE000
  }

  /** Reading code units back into code points, as `String.codePoints` does:
      a high surrogate followed by a low one is one supplementary character,
      any other unit stands for itself. Decoding runs from the end, matching
      how `Utf16` appends. */
  function DecodeUtf16(units: seq<int>): (points: seq<int>)
    ensures |points| <= |units|
  {
    if |units| == 0 then []
    else
      var n := |units|;
      if n >= 2 && IsHighSurrogate(units[n - 2]) && IsLowSurrogate(units[n - 1]) then
        DecodeUtf16(units[..n - 2]) + [0x1_0000 + (units[n - 2] - 0xD800) * 0x400 + (units[n - 1] - 0xDC00)]
      else DecodeUtf16(units[..n - 1]) + [units[n - 1]]
  }

  /** The code points of a string. */
  function CodePoints(s: String): (points: seq<int>)
    ensures |points| == |s|
  {
    seq(|s|, i requires 0 <= i < |s| => s[i] as int)
  }

  /** UTF-16 loses nothing: decoding the code units gives back every
      character. A character below U+10000 is one unit equal to itself; any
      other is a high surrogate followed by a low one. */
  lemma {:induction false} Utf16RoundTrip(s: String)
    ensures DecodeUtf16(Utf16(s)) == CodePoints(s)
    decreases |s|
  {
    if |s| > 0 {
      var init := s[..|s| - 1];
      Utf16RoundTrip(init);
      CodePointsSnoc(s);
      DecodeLastChar(s);
    }
  }

  /** The last character of a string decodes to itself, after the rest. */
  lemma {:induction false} DecodeLastChar(s: String)
    requires |s| > 0
    ensures DecodeUtf16(Utf16(s)) == DecodeUtf16(Utf16(s[..|s| - 1])) + [s[|s| - 1] as int]
  {
    var init, c := s[..|s| - 1], s[|s| - 1] as int;
    if c < 0x1_0000 {
      assert Utf16(s) == Utf16(init) + [c];
      DecodeAppendUnit(Utf16(init), c);
    } else {
      var hi, lo := 0xD800 + (c - 0x1_0000) / 0x400, 0xDC00 + (c - 0x1_0000) % 0x400;
      assert Utf16(s) == Utf16(init) + [hi, lo];
      SurrogatePair(c);
      DecodeAppendPair(Utf16(init), hi, lo);
    }
  }

  /** The code points of a non-empty string are those of all but its last
      character, then the last one's. */
  lemma {:induction false} CodePointsSnoc(s: String)
    requires |s| > 0
    ensures CodePoints(s) == CodePoints(s[..|s| - 1]) + [s[|s| - 1] as int]
  {
  }

  /** A unit that is not a low surrogate decodes to itself after the rest. */
  lemma {:induction false} DecodeAppendUnit(prefix: seq<int>, u: int)
    requires !IsLowSurrogate(u)
    ensures DecodeUtf16(prefix + [u]) == DecodeUtf16(prefix) + [u]
  {
    assert (prefix + [u])[..|prefix|] == prefix;
  }

  /** A high surrogate followed by a low one decodes to one code point. */
  lemma {:induction false} DecodeAppendPair(prefix: seq<int>, hi: int, lo: int)
    requires IsHighSurrogate(hi) && IsLowSurrogate(lo)
    ensures DecodeUtf16(prefix + [hi, lo]) ==
      DecodeUtf16(prefix) + [0x1_0000 + (hi - 0xD800) * 0x400 + (lo - 0xDC00)]
  {
    var units := prefix + [hi, lo];
    assert units[..|units| - 2] == prefix;
    assert units[|units| - 2] == hi && units[|units| - 1] == lo;
  }

  /** A supplementary character splits into a high and a low surrogate that
      recombine to it. */
  lemma {:induction false} SurrogatePair(c: int)
    requires 0x1_0000 <= c < 0x11_0000
    ensures var hi, lo := 0xD800 + (c - 0x1_0000) / 0x400, 0xDC00 + (c - 0x1_0000) % 0x400;
      && IsHighSurrogate(hi) && IsLowSurrogate(lo)
      && 0x1_0000 + (hi - 0xD800) * 0x400 + (lo - 0xDC00) == c
  {
    var d := c - 0x1_0000;
    assert d == (d / 0x400) * 0x400 + d % 0x400;
  }

  /** `String.hashCode` as the JDK computes it: `h = 31 * h + unit` over
      the code units, in `int` arithmetic. */
  function HashCode(units: seq<int>): (h: int)
    ensures IsInt32(h)
  {
    if |units| == 0 then 0
    else Wrap(31 * HashCode(units[..|units| - 1]) + units[|units| - 1])
  }

  function Pow31(n: nat): (p: nat)
  {
    if n == 0 then 1 else 31 * Pow31(n - 1)
  }

  /** The documented formula `s[0]*31^(n-1) + s[1]*31^(n-2) + ... + s[n-1]`,
      over the integers. */
  function Polynomial(units: seq<int>): int
  {
    if |units| == 0 then 0
    else units[0] * Pow31(|units| - 1) + Polynomial(units[1..])
  }

  /** Appending a unit multiplies the polynomial by 31 and adds the unit. */
  lemma {:induction false} PolynomialSnoc(units: seq<int>, u: int)
    ensures Polynomial(units + [u]) == 31 * Polynomial(units) + u
    decreases |units|
  {
    if |units| == 0 {
      assert units + [u] == [u];
      assert [u][1..] == [];
    } else {
      var n := |units|;
      assert (units + [u])[1..] == units[1..] + [u];
      PolynomialSnoc(units[1..], u);
      assert Pow31(n) == 31 * Pow31(n - 1);
      calc {
        Polynomial(units + [u]);
        units[0] * Pow31(n) + Polynomial(units[1..] + [u]);
        units[0] * (31 * Pow31(n - 1)) + 31 * Polynomial(units[1..]) + u;
        { assert units[0] * (31 * Pow31(n - 1)) == 31 * (units[0] * Pow31(n - 1)); }
        31 * (units[0] * Pow31(n - 1) + Polynomial(units[1..])) + u;
      }
    }
  }

  /** Multiplying and adding respects congruence modulo 2^32. */
  lemma {:induction false} StepCongruent(a: int, b: int, u: int)
    requires (a - b) % Modulus == 0
    ensures ((31 * a + u) - (31 * b + u)) % Modulus == 0
  {
    var k := (a - b) / Modulus;
    assert a - b == k * Modulus;
    assert (31 * a + u) - (31 * b + u) == (31 * k) * Modulus;
  }

  /** The JDK's loop computes the documented polynomial modulo 2^32. */
  lemma {:induction false} HashCodeIsPolynomial(units: seq<int>)
    ensures (HashCode(units) - Polynomial(units)) % Modulus == 0
    decreases |units|
  {
    if |units| > 0 {
      var n := |units| - 1;
      var init, u := units[..n], units[n];
      assert units == init + [u];
      HashCodeIsPolynomial(init);
      PolynomialSnoc(init, u);
      StepCongruent(HashCode(init), Polynomial(init), u);
      var x := 31 * HashCode(init) + u;
      var y := 31 * Polynomial(init) + u;
      var h := Wrap(x);
      assert (h - x) % Modulus == 0;
      assert (x - y) % Modulus == 0;
      SumCongruent(h - x, x - y);
    }
  }

  /** The sum of two multiples of 2^32 is one. */
  lemma {:induction false} SumCongruent(a: int, b: int)
    requires a % Modulus == 0 && b % Modulus == 0
    ensures (a + b) % Modulus == 0
  {
    assert a == (a / Modulus) * Modulus;
    assert b == (b / Modulus) * Modulus;
    assert a + b == (a / Modulus + b / Modulus) * Modulus;
  }

  /** A lower-case hexadecimal digit. */
  predicate IsHexDigit(c: char)
  {
    '0' <= c <= '9' || 'a' <= c <= 'f'
  }

  /** The lower-case hexadecimal digit of `d`. */
  function HexDigit(d: nat): (c: char)
    requires d < 16
    ensures IsHexDigit(c)
  {
    if d < 10 then ('0' as int + d) as char else ('a' as int + d - 10) as char
  }

  /** The lower-case digits of `n` in base 16, most significant first, with
      no leading zero. */
  function Hex(n: nat): (r: String)
    ensures |r| >= 1
    ensures forall k :: 0 <= k < |r| ==> IsHexDigit(r[k])
    ensures |r| > 1 ==> r[0] != '0'
    ensures n == 0 <==> r == "0"
  {
    if n < 16 then [HexDigit(n)]
    else Hex(n / 16) + [HexDigit(n % 16)]
  }

  /** The value of a hexadecimal digit. */
  function DigitValue(c: char): (v: nat)
    requires IsHexDigit(c)
    ensures v < 16 && HexDigit(v) == c
  {
    if '0' <= c <= '9' then c as int - '0' as int else c as int - 'a' as int + 10
  }

  /** The value of a string of hexadecimal digits. */
  function ParseHex(s: String): nat
    requires forall k :: 0 <= k < |s| ==> IsHexDigit(s[k])
  {
    if |s| == 0 then 0
    else 16 * ParseHex(s[..|s| - 1]) + DigitValue(s[|s| - 1])
  }

  /** Reading the rendering back gives the number: `Hex` loses nothing. */
  lemma {:induction false} ParseHexOfHex(n: nat)
    ensures ParseHex(Hex(n)) == n
  {
    var r := Hex(n);
    if n >= 16 {
      ParseHexOfHex(n / 16);
      assert r[..|r| - 1] == Hex(n / 16);
    }
    assert DigitValue(HexDigit(n % 16)) == n % 16;
  }

  /** Numbers below 16^k have at most `k` digits; in particular a 32-bit
      value has at most eight. */
  lemma {:induction false} HexLength(n: nat, k: nat)
    requires 1 <= k && n < Pow16(k)
    ensures |Hex(n)| <= k
  {
    if n >= 16 {
      assert k > 1;
      assert n / 16 < Pow16(k - 1);
      HexLength(n / 16, k - 1);
    }
  }

  function Pow16(k: nat): nat
  {
    if k == 0 then 1 else 16 * Pow16(k - 1)
  }

  /** `Integer.toHexString(i)`: the unsigned value of the `int`, that is
      `i` modulo 2^32, in lower-case hexadecimal. */
  function ToHexString(i: int): (r: String)
    requires IsInt32(i)
    ensures 1 <= |r| <= 8
    ensures forall k :: 0 <= k < |r| ==> IsHexDigit(r[k])
    ensures |r| > 1 ==> r[0] != '0'
    ensures ParseHex(r) == i % Modulus
  {
    var u := i % Modulus;
    assert Pow16(8) == Modulus;
    HexLength(u, 8);
    ParseHexOfHex(u);
    Hex(u)
  }

  /** `mkdir`'s directory name for an address: `Integer.toHexString` of the
      `hashCode` of its UTF-16 units, so between one and eight lower-case
      hexadecimal digits, with no leading zero unless it is `0`. */
  function DirectoryName(address: String): (name: String)
    ensures 1 <= |name| <= 8
    ensures forall k :: 0 <= k < |name| ==> IsHexDigit(name[k])
    ensures |name| > 1 ==> name[0] != '0'
  {
    ToHexString(HashCode(Utf16(address)))
  }

  /** The directory name renders the documented hash polynomial of the
      address's UTF-16 units, reduced modulo 2^32. */
  lemma {:induction false} DirectoryNameIsHex(address: String)
    ensures DirectoryName(address) == Hex(Polynomial(Utf16(address)) % Modulus)
  {
    var h := HashCode(Utf16(address));
    HashCodeIsPolynomial(Utf16(address));
    SameResidue(h, Polynomial(Utf16(address)));
    assert ToHexString(h) == Hex(h % Modulus);
  }

  /** The directory name's value is the documented hash polynomial of the
      address's UTF-16 units modulo 2^32. */
  lemma {:induction false} DirectoryNameValue(address: String)
    ensures ParseHex(DirectoryName(address)) == Polynomial(Utf16(address)) % Modulus
  {
    DirectoryNameIsHex(address);
    ParseHexOfHex(Polynomial(Utf16(address)) % Modulus);
  }

  /** Numbers that differ by a multiple of 2^32 have the same residue. */
  lemma {:induction false} SameResidue(a: int, b: int)
    requires (a - b) % Modulus == 0
    ensures a % Modulus == b % Modulus
  {
    var k := (a - b) / Modulus;
    assert a == b + k * Modulus;
  }

  /** Two addresses get the same directory exactly when their hashes agree
      modulo 2^32 (collisions are not resolved). */
  lemma {:induction false} SameDirectoryIffSameHash(a: String, b: String)
    ensures DirectoryName(a) == DirectoryName(b) <==>
      Polynomial(Utf16(a)) % Modulus == Polynomial(Utf16(b)) % Modulus
  {
    var ra, rb := Polynomial(Utf16(a)) % Modulus, Polynomial(Utf16(b)) % Modulus;
    DirectoryNameIsHex(a);
    DirectoryNameIsHex(b);
    ParseHexOfHex(ra);
    ParseHexOfHex(rb);
  }

  /** The empty address hashes to 0 and gets the directory `0`. */
  lemma {:induction false} EmptyAddressDirectory(a: String)
    requires a == []
    ensures DirectoryName(a) == "0"
  {
    assert Utf16(a) == [];
    SmallResidue(0);
    assert ToHexString(0) == Hex(0);
  }

  /** A one-character address whose character is a single UTF-16 unit
      hashes to that unit, so its directory is the unit's hex rendering. */
  lemma {:induction false} SingleUnitDirectory(c: char)
    requires (c as int) < 0x1_0000
    ensures DirectoryName([c]) == Hex(c as int)
  {
    var u := c as int;
    assert Utf16([c]) == [u] by {
      assert [c][..0] == [];
    }
    SingleUnitHash(u);
    SmallResidue(u);
    assert ToHexString(u) == Hex(u);
  }

  /** One unit below 2^16 hashes to itself. */
  lemma {:induction false} SingleUnitHash(u: int)
    requires 0 <= u < 0x1_0000
    ensures HashCode([u]) == u
  {
    assert [u][..0] == [];
    SmallResidue(u);
    assert Wrap(u) == u;
  }

  /** A number in `[0, 2^32)` is its own residue. */
  lemma {:induction false} SmallResidue(x: int)
    requires 0 <= x < Modulus
    ensures x % Modulus == x
  {
  }

  /** "a" is 97, so its directory is `61`. */
  lemma {:induction false} OneLetterDirectory(a: String)
    requires a == "a"
    ensures DirectoryName(a) == "61"
  {
    SingleUnitDirectory('a');
    assert Hex(97) == "61" by {
      assert Hex(6) == "6";
    }
  }
}
