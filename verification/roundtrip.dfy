/** The decoder of src/libcask/base64url.h inverts the encoder of
    src/libcask/cask_dependencies.cpp: decoding an encoding gives back the
    bytes, and a 4-character group decodes by the closed form the key layout
    relies on. */
module RoundTrip {
  import opened Bits
  import opened Helpers
  import opened Encoder
  import opened Decoder

  /** Each character of `s` has as its value the matching 6-bit group of `bits`. */
  predicate CarriesGroups(s: string, bits: seq<bool>) {
    |bits| == 6 * |s| &&
    forall k :: 0 <= k < |s| ==> StdValue(s[k]) == BitsToNat(bits[6 * k..6 * k + 6])
  }

  /** A string whose character values are the 6-bit groups of `bits` has
      exactly `bits` as its stream. */
  lemma {:induction false} StreamOfGroups(s: string, bits: seq<bool>)
    requires CarriesGroups(s, bits)
    ensures SextetStream(s) == bits
    decreases |s|
  {
    if |s| > 0 {
      var n := |s| - 1;
      GroupsPrefix(s, bits);
      StreamOfGroups(s[..n], bits[..6 * n]);
      LastGroup(s[..n], s[n], bits[..6 * n], bits[6 * n..]);
    }
  }

  lemma {:induction false} GroupsPrefix(s: string, bits: seq<bool>)
    requires CarriesGroups(s, bits) && |s| > 0
    ensures CarriesGroups(s[..|s| - 1], bits[..6 * (|s| - 1)])
    ensures StdValue(s[|s| - 1]) == BitsToNat(bits[6 * (|s| - 1)..])
    ensures s == s[..|s| - 1] + [s[|s| - 1]] && bits == bits[..6 * (|s| - 1)] + bits[6 * (|s| - 1)..]
  {
    var n := |s| - 1;
    assert bits[6 * n..] == bits[6 * n..6 * n + 6];
    var s', bits' := s[..n], bits[..6 * n];
    forall k | 0 <= k < n
      ensures StdValue(s'[k]) == BitsToNat(bits'[6 * k..6 * k + 6])
    {
      assert s'[k] == s[k];
      assert bits'[6 * k..6 * k + 6] == bits[6 * k..6 * k + 6];
    }
  }

  /** A last character extends the stream by its own group. */
  lemma {:induction false} LastGroup(s: string, ch: char, bits: seq<bool>, last: seq<bool>)
    requires SextetStream(s) == bits && |last| == 6 && StdValue(ch) == BitsToNat(last)
    ensures SextetStream(s + [ch]) == bits + last
  {
    assert (s + [ch])[..|s|] == s;
    BitsOfValue(last);
  }

  /** Character k of the replaced encoding is the standard character for
      group k of the padded bit stream. */
  lemma {:induction false} EncodedStandardChar(bytes: seq<byte>, k: nat)
    requires k < |EncodeSpec(bytes)|
    ensures 6 * k + 6 <= |PaddedBits(bytes)|
    ensures IsStandardChar(ToStandard(EncodeSpec(bytes))[k])
    ensures StdValue(ToStandard(EncodeSpec(bytes))[k]) == SextetAt(PaddedBits(bytes), k)
  {
    var e, p := EncodeSpec(bytes), PaddedBits(bytes);
    var v := SextetAt(p, k);
    assert e[k] == Base64UrlChars[v] == UrlChar(v);
    ToStandardChar(e, k);
    assert ToStandard(e)[k] == StdChar(v);
    StdCharIsStandard(v);
  }

  /** The 6-bit stream of the replaced encoding is the padded bit stream. */
  lemma {:induction false} EncodedStream(bytes: seq<byte>)
    ensures AllStandard(ToStandard(EncodeSpec(bytes)))
    ensures SextetStream(ToStandard(EncodeSpec(bytes))) == PaddedBits(bytes)
  {
    var t, p := ToStandard(EncodeSpec(bytes)), PaddedBits(bytes);
    forall k | 0 <= k < |t|
      ensures IsStandardChar(t[k]) && StdValue(t[k]) == BitsToNat(p[6 * k..6 * k + 6])
    {
      EncodedStandardChar(bytes, k);
    }
    StreamOfGroups(t, p);
  }

  /** ceil(8n/6) characters carry 6 * ceil(8n/6) bits, of which the first
      8n make whole bytes. */
  lemma {:induction false} EncodedLength(n: nat)
    ensures 6 * ((8 * n + 5) / 6) / 8 == n
    ensures ((8 * n + 5) / 6) % 4 != 1
  {
    var c := (8 * n + 5) / 6;
    assert 8 * n <= 6 * c <= 8 * n + 5;
    DivModUnique(6 * c, 8, n, 6 * c - 8 * n);
    var q, r := n / 3, n % 3;
    assert 8 * n + 5 == 6 * (4 * q) + (8 * r + 5);
    DivModUnique(8 * n + 5, 6, 4 * q + (8 * r + 5) / 6, (8 * r + 5) % 6);
  }

  /** Decoding an encoding gives back the bytes, written at the front of the
      destination, with the rest of it untouched. */
  lemma {:induction false} DecodeEncoded(bytes: seq<byte>, dest: seq<byte>)
    requires |bytes| <= |dest|
    ensures DecodeFromChars(EncodeSpec(bytes), dest) == Wrote(|bytes|, bytes + dest[|bytes|..])
  {
    var e := EncodeSpec(bytes);
    EncodedLength(|bytes|);
    forall k | 0 <= k < |e|
      ensures IsAcceptedChar(e[k])
    {
      ValidCharacterIsInAlphabet(e[k]);
    }
    FromCharsDecodes(e, dest);
    EncodedStream(bytes);
    BytesRoundTrip(bytes, Zeros(PadBits(8 * |bytes|)));
  }

  /** The decoder as written also inverts the encoder, for any non-empty
      input: an encoding never has 4k+1 characters. */
  lemma {:induction false} DecodeEncodedAsWritten(bytes: seq<byte>, dest: seq<byte>)
    requires 0 < |bytes| <= |dest|
    ensures DecodeFromCharsAsWritten(EncodeSpec(bytes), dest) == Wrote(|bytes|, bytes + dest[|bytes|..])
  {
    EncodedLength(|bytes|);
    AsWrittenAgrees(EncodeSpec(bytes), dest);
    DecodeEncoded(bytes, dest);
  }

  /** Four characters of values a, b, c, d decode to the three bytes holding
      their 24 bits: a with the top 2 bits of b, the low 4 bits of b with the
      top 4 of c, the low 2 bits of c with d. */
  lemma {:induction false} DecodeGroup(a: nat, b: nat, c: nat, d: nat, group: string, dest: seq<byte>)
    requires a < 64 && b < 64 && c < 64 && d < 64 && 3 <= |dest|
    requires group == [UrlChar(a), UrlChar(b), UrlChar(c), UrlChar(d)]
    ensures DecodeFromChars(group, dest) ==
      Wrote(3, [(a * 4 + b / 16) as byte, ((b % 16) * 16 + c / 4) as byte, ((c % 4) * 64 + d) as byte]
               + dest[3..])
  {
    var bytes := [(a * 4 + b / 16) as byte, ((b % 16) * 16 + c / 4) as byte, ((c % 4) * 64 + d) as byte];
    EncodeGroupValues(a, b, c, d);
    DecodeEncoded(bytes, dest);
  }

  /** The three bytes of `DecodeGroup` encode to the four characters. */
  lemma {:induction false} EncodeGroupValues(a: nat, b: nat, c: nat, d: nat)
    requires a < 64 && b < 64 && c < 64 && d < 64
    ensures a * 4 + b / 16 < 256 && (b % 16) * 16 + c / 4 < 256 && (c % 4) * 64 + d < 256
    ensures EncodeSpec([(a * 4 + b / 16) as byte, ((b % 16) * 16 + c / 4) as byte, ((c % 4) * 64 + d) as byte])
      == [UrlChar(a), UrlChar(b), UrlChar(c), UrlChar(d)]
  {
    RegroupBits(a, b, c, d);
    EncodeSextets([(a * 4 + b / 16) as byte, ((b % 16) * 16 + c / 4) as byte, ((c % 4) * 64 + d) as byte],
                  (a * 4 + b / 16) as byte, ((b % 16) * 16 + c / 4) as byte, ((c % 4) * 64 + d) as byte,
                  a, b, c, d);
  }

  /** Three bytes whose 6-bit groups are a, b, c, d encode to their characters. */
  lemma {:induction false} EncodeSextets(bytes: seq<byte>, x: byte, y: byte, z: byte, a: nat, b: nat, c: nat, d: nat)
    requires bytes == [x, y, z]
    requires x as nat / 4 == a && (x as nat % 4) * 16 + y as nat / 16 == b
    requires (y as nat % 16) * 4 + z as nat / 64 == c && z as nat % 64 == d
    ensures a < 64 && b < 64 && c < 64 && d < 64
    ensures EncodeSpec(bytes) == [UrlChar(a), UrlChar(b), UrlChar(c), UrlChar(d)]
  {
    EncodeGroup(x, y, z);
    assert Base64UrlChars[a] == UrlChar(a) && Base64UrlChars[b] == UrlChar(b);
    assert Base64UrlChars[c] == UrlChar(c) && Base64UrlChars[d] == UrlChar(d);
  }

  /** Splitting 24 bits into bytes and back into 6-bit groups. */
  lemma {:induction false} RegroupBits(a: nat, b: nat, c: nat, d: nat)
    requires a < 64 && b < 64 && c < 64 && d < 64
    ensures a * 4 + b / 16 < 256 && (b % 16) * 16 + c / 4 < 256 && (c % 4) * 64 + d < 256
    ensures (a * 4 + b / 16) / 4 == a
    ensures ((a * 4 + b / 16) % 4) * 16 + ((b % 16) * 16 + c / 4) / 16 == b
    ensures (((b % 16) * 16 + c / 4) % 16) * 4 + ((c % 4) * 64 + d) / 64 == c
    ensures ((c % 4) * 64 + d) % 64 == d
  {
    DivModUnique(a * 4 + b / 16, 4, a, b / 16);
    DivModUnique((b % 16) * 16 + c / 4, 16, b % 16, c / 4);
    DivModUnique((c % 4) * 64 + d, 64, c % 4, d);
  }
}
