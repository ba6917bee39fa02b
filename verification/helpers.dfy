/** The helper routines of libcask (src/libcask/helpers.cpp and helpers.h):
    32-bit alignment arithmetic, the URL-safe base64 alphabet, and the
    validity test for NUL-terminated C strings. */
module Helpers {
  import opened Results
  import Bits

  // ---------------------------------------------------------------------------
  // 32-bit signed integers
  // ---------------------------------------------------------------------------

  const Int32Min: int := -0x8000_0000
  const Int32Max: int := 0x7FFF_FFFF

  predicate IsInt32(x: int) {
    Int32Min <= x <= Int32Max
  }

  /** C++ integer division, which truncates toward zero (Dafny's `/` is
      Euclidean). The quotient times the divisor lies between zero and the
      dividend, and misses it by less than one divisor. */
  function TruncDiv(a: int, b: int): (q: int)
    requires b != 0
    ensures a >= 0 ==> 0 <= q * b <= a
    ensures a < 0 ==> a <= q * b <= 0
    ensures b > 0 ==> -b < a - q * b < b
    ensures b < 0 ==> b < a - q * b < -b
  {
    if a >= 0 && b > 0 then
      QuotientBounds(a, b);
      a / b
    else if a >= 0 then
      QuotientBounds(a, -b);
      assert -(a / -b) * b == (a / -b) * -b;
      -(a / -b)
    else if b > 0 then
      QuotientBounds(-a, b);
      assert -(-a / b) * b == -((-a / b) * b);
      -(-a / b)
    else
      QuotientBounds(-a, -b);
      assert (-a / -b) * b == -((-a / -b) * -b);
      -a / -b
  }

  lemma {:induction false} QuotientBounds(n: nat, d: int)
    requires d > 0
    ensures 0 <= (n / d) * d <= n && n - (n / d) * d < d
  {
    assert n == (n / d) * d + n % d;
  }

  // ---------------------------------------------------------------------------
  // Alignment (helpers.cpp)
  // ---------------------------------------------------------------------------

  /** `(value + multiple - 1) / multiple * multiple` on int32. C++ adds left
      to right, so neither `value + multiple` nor the following `- 1` may
      overflow (signed overflow is undefined in C++); the product then
      cannot. For a non-negative value and a positive multiple the result
      is the least multiple at or above the value. */
  function RoundUpToMultipleOf(value: int, multiple: int): (r: int)
    requires IsInt32(value) && IsInt32(multiple) && multiple != 0
    requires IsInt32(value + multiple) && IsInt32(value + multiple - 1)
    ensures IsInt32(r)
    ensures value >= 0 && multiple > 0 ==> r % multiple == 0 && value <= r < value + multiple
    ensures value < 0 && multiple > 0 ==> r < multiple
  {
    var q := TruncDiv(value + multiple - 1, multiple);
    if value >= 0 && multiple > 0 then
      Bits.DivModUnique(q * multiple, multiple, q, 0);
      q * multiple
    else
      q * multiple
  }

  /** `RoundUpToMultipleOf(bytes, 3)`: the byte count padded to whole
      3-byte (4-character) base64 groups. */
  function RoundUpTo3ByteAlignment(bytes: int): (r: int)
    requires IsInt32(bytes) && bytes <= Int32Max - 3
    ensures IsInt32(r)
    ensures bytes >= 0 ==> Is3ByteAligned(r) && bytes <= r < bytes + 3
    ensures bytes < 0 ==> r < 3
  {
    RoundUpToMultipleOf(bytes, 3)
  }

  /** Rounding leaves an aligned value unchanged. */
  lemma {:induction false} RoundUpIdempotent(value: int, multiple: int)
    requires 0 <= value && 0 < multiple && IsInt32(multiple) && IsInt32(value + multiple)
    requires value % multiple == 0
    ensures RoundUpToMultipleOf(value, multiple) == value
  {
    var r := RoundUpToMultipleOf(value, multiple);
    var k, j := value / multiple, r / multiple;
    assert value == k * multiple;
    assert r == j * multiple;
    assert r - value == (j - k) * multiple;
    if j > k {
      Bits.MulAtLeast(j - k, multiple);
    } else if j < k {
      Bits.MulAtLeast(k - j, multiple);
    }
  }

  /** Rounding twice is rounding once. */
  lemma {:induction false} RoundUpTwice(value: int, multiple: int)
    requires 0 <= value && 0 < multiple && IsInt32(multiple) && IsInt32(value + 2 * multiple - 1)
    ensures RoundUpToMultipleOf(RoundUpToMultipleOf(value, multiple), multiple)
         == RoundUpToMultipleOf(value, multiple)
  {
    RoundUpIdempotent(RoundUpToMultipleOf(value, multiple), multiple);
  }

  /** Below zero, truncating division rounds toward zero rather than up:
      -4 becomes 0, and the already aligned -6 moves to -3. */
  lemma RoundUpBelowZero()
    ensures RoundUpToMultipleOf(-4, 3) == 0
    ensures RoundUpToMultipleOf(-6, 3) == -3
  {
  }

  /** The three aligned sizes behind the constants of cask.cpp. */
  lemma AlignmentOfConstants()
    ensures RoundUpTo3ByteAlignment(16) == 18
    ensures RoundUpTo3ByteAlignment(24) == 24
    ensures RoundUpTo3ByteAlignment(64) == 66
  {
  }

  // The following four helpers are declared in helpers.h without a visible
  // definition; they are given their evident meaning.

  predicate Is3ByteAligned(byteLength: int) {
    byteLength % 3 == 0
  }

  predicate Is4CharAligned(charLength: int) {
    charLength % 4 == 0
  }

  /** Characters needed for a byte count: every 3 bytes become 4 characters. */
  function BytesToBase64Chars(bytes: nat): (chars: nat)
    ensures Is4CharAligned(chars)
    ensures Is3ByteAligned(bytes) ==> 3 * chars == 4 * bytes
  {
    bytes / 3 * 4
  }

  /** Bytes carried by a character count: every 4 characters carry 3 bytes. */
  function Base64CharsToBytes(chars: nat): (bytes: nat)
    ensures Is3ByteAligned(bytes)
    ensures Is4CharAligned(chars) ==> 4 * bytes == 3 * chars
  {
    chars / 4 * 3
  }

  lemma {:induction false} CharsBytesRoundTrip(n: nat)
    ensures Is3ByteAligned(n) ==> Base64CharsToBytes(BytesToBase64Chars(n)) == n
    ensures Is4CharAligned(n) ==> BytesToBase64Chars(Base64CharsToBytes(n)) == n
  {
  }

  // ---------------------------------------------------------------------------
  // The URL-safe alphabet (section 5 of RFC 4648)
  // ---------------------------------------------------------------------------

  /** The character with index v of the URL-safe alphabet. */
  function UrlChar(v: nat): char
    requires v < 64
  {
    if v < 26 then ('A' as int + v) as char
    else if v < 52 then ('a' as int + (v - 26)) as char
    else if v < 62 then ('0' as int + (v - 52)) as char
    else if v == 62 then '-'
    else '_'
  }

  /** The table
      "ABCDEFGHIJKLMNOPQRSTUVWXYZabcdefghijklmnopqrstuvwxyz0123456789-_",
      built from its four character ranges. */
  function UrlTable(): (t: string)
    ensures |t| == 64
    ensures forall v :: 0 <= v < 64 ==> t[v] == UrlChar(v)
  {
    seq(64, v requires 0 <= v < 64 => UrlChar(v))
  }

  const Base64UrlChars: string := UrlTable()

  /** Spot checks of the table's range boundaries. */
  lemma AlphabetBoundaries()
    ensures Base64UrlChars[0] == 'A' && Base64UrlChars[25] == 'Z'
    ensures Base64UrlChars[26] == 'a' && Base64UrlChars[51] == 'z'
    ensures Base64UrlChars[52] == '0' && Base64UrlChars[61] == '9'
    ensures Base64UrlChars[62] == '-' && Base64UrlChars[63] == '_'
  {
  }

  /** The table is the 64-character literal of the source, written here as
      its four ranges. */
  lemma UrlTableLiteral()
    ensures Base64UrlChars
         == "ABCDEFGHIJKLMNOPQRSTUVWXYZ" + "abcdefghijklmnopqrstuvwxyz" + "0123456789" + "-_"
  {
    var upper, lower, digits := "ABCDEFGHIJKLMNOPQRSTUVWXYZ", "abcdefghijklmnopqrstuvwxyz", "0123456789";
    forall i | 0 <= i < 26 ensures Base64UrlChars[i] == upper[i] && Base64UrlChars[26 + i] == lower[i] { }
    forall i | 0 <= i < 10 ensures Base64UrlChars[52 + i] == digits[i] { }
    assert Base64UrlChars == upper + lower + digits + "-_";
  }

  /** True for `A-Z`, `a-z`, `0-9`, `-` and `_`. */
  predicate IsValidBase64UrlCharacter(c: char) {
    ('A' <= c <= 'Z') || ('a' <= c <= 'z') || ('0' <= c <= '9') || c == '-' || c == '_'
  }

  /** The position of a valid character in the table. */
  function UrlIndex(c: char): (v: nat)
    requires IsValidBase64UrlCharacter(c)
    ensures v < 64 && UrlChar(v) == c
  {
    if 'A' <= c <= 'Z' then c as int - 'A' as int
    else if 'a' <= c <= 'z' then c as int - 'a' as int + 26
    else if '0' <= c <= '9' then c as int - '0' as int + 52
    else if c == '-' then 62
    else 63
  }

  /** The range test accepts exactly the 64 characters of the table. */
  lemma {:induction false} ValidCharacterIsInAlphabet(c: char)
    ensures IsValidBase64UrlCharacter(c) <==> c in Base64UrlChars
  {
    if IsValidBase64UrlCharacter(c) {
      assert Base64UrlChars[UrlIndex(c)] == c;
    }
    if c in Base64UrlChars {
      var v :| 0 <= v < 64 && Base64UrlChars[v] == c;
      assert UrlChar(v) == c;
    }
  }

  // ---------------------------------------------------------------------------
  // NUL-terminated C strings
  // ---------------------------------------------------------------------------

  /** A `const char*`: either null, or a character buffer whose string ends at
      the first NUL (or at the end of the buffer). */
  datatype CString = Null | Chars(buf: seq<char>)

  /** Index of the first NUL at or after `from`, or the buffer's length. */
  function Terminator(buf: seq<char>, from: nat): (n: nat)
    requires from <= |buf|
    ensures from <= n <= |buf|
    ensures n < |buf| ==> buf[n] == '\0'
    ensures forall i :: from <= i < n ==> buf[i] != '\0'
    decreases |buf| - from
  {
    if from == |buf| || buf[from] == '\0' then from else Terminator(buf, from + 1)
  }

  /** `std::strlen`: the position of the first NUL, or the whole buffer
      when it has none. */
  function Strlen(s: CString): (n: nat)
    requires s.Chars?
    ensures n <= |s.buf|
    ensures n < |s.buf| ==> s.buf[n] == '\0'
    ensures forall i :: 0 <= i < n ==> s.buf[i] != '\0'
  {
    Terminator(s.buf, 0)
  }

  /** The characters before the terminator. */
  function Contents(s: CString): (r: string)
    requires s.Chars?
    ensures |r| == Strlen(s)
    ensures forall i :: 0 <= i < |r| ==> r[i] != '\0'
  {
    s.buf[..Strlen(s)]
  }

  /** A buffer without NUL holds exactly its characters. */
  lemma {:induction false} ContentsWithoutNul(buf: seq<char>)
    requires forall i :: 0 <= i < |buf| ==> buf[i] != '\0'
    ensures Contents(Chars(buf)) == buf
  {
  }

  /** The character-by-character walk of `IsValidForBase64Url`, from position `p`. */
  function AllValidFrom(buf: seq<char>, p: nat): (r: bool)
    requires p <= |buf|
    ensures r <==> forall i :: p <= i < Terminator(buf, p) ==> IsValidBase64UrlCharacter(buf[i])
    decreases |buf| - p
  {
    if p == |buf| || buf[p] == '\0' then true
    else if !IsValidBase64UrlCharacter(buf[p]) then false
    else AllValidFrom(buf, p + 1)
  }

  /** False for null; otherwise true iff every character before the
      terminator is URL-safe (so true for the empty string). */
  function IsValidForBase64Url(value: CString): (r: bool)
    ensures value.Null? ==> !r
    ensures value.Chars? ==> (r <==> forall c :: c in Contents(value) ==> c in Base64UrlChars)
  {
    match value
    case Null => false
    case Chars(buf) =>
      var ok := AllValidFrom(buf, 0);
      assert ok <==> forall c :: c in Contents(value) ==> c in Base64UrlChars by {
        forall c {
          ValidCharacterIsInAlphabet(c);
        }
      }
      ok
  }
}
