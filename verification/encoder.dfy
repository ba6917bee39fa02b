/** `Base64UrlEncode` of src/libcask/cask_dependencies.cpp: a bit-stream
    encoder over the URL-safe alphabet that emits no padding. */
module Encoder {
  import opened Bits
  import opened Helpers
  import Text

  // ---------------------------------------------------------------------------
  // Reference definition over the bit stream
  // ---------------------------------------------------------------------------

  /** Zero bits that complete the last 6-bit group of an n-bit stream. */
  function PadBits(n: nat): nat {
    (6 - n % 6) % 6
  }

  /** The big-endian input bit stream, zero-filled on the right to whole 6-bit groups. */
  function PaddedBits(bytes: seq<byte>): (r: seq<bool>)
    ensures |r| == 8 * |bytes| + PadBits(8 * |bytes|)
    ensures |r| % 6 == 0 && |r| / 6 == (8 * |bytes| + 5) / 6
  {
    PaddedLength(8 * |bytes|);
    BytesToBits(bytes) + Zeros(PadBits(8 * |bytes|))
  }

  lemma {:induction false} PaddedLength(m: nat)
    ensures (m + PadBits(m)) % 6 == 0 && (m + PadBits(m)) / 6 == (m + 5) / 6
  {
    var q, k := m / 6, m % 6;
    assert m == 6 * q + k;
    if k == 0 {
      assert m + PadBits(m) == 6 * q;
    } else {
      assert m + PadBits(m) == 6 * (q + 1);
      assert m + 5 == 6 * (q + 1) + (k - 1);
    }
  }

  /** The value of the i-th 6-bit group of a bit stream. */
  function SextetAt(bits: seq<bool>, i: nat): (v: nat)
    requires 6 * i + 6 <= |bits|
    ensures v < 64
  {
    Pow2Values();
    BitsToNat(bits[6 * i..6 * i + 6])
  }

  /** The alphabet characters of the first n 6-bit groups. */
  function GroupChars(bits: seq<bool>, n: nat): (r: string)
    requires 6 * n <= |bits|
    ensures |r| == n
  {
    seq(n, i requires 0 <= i < n => Base64UrlChars[SextetAt(bits, i)])
  }

  /** No table character is a padding or standard-alphabet character. */
  lemma {:induction false} TableExcludes(v: nat)
    requires v < 64
    ensures Base64UrlChars[v] != '=' && Base64UrlChars[v] != '+' && Base64UrlChars[v] != '/'
  {
  }

  /** The encoding the algorithm is meant to produce: character i is the
      alphabet entry for bits 6i..6i+5 of the padded bit stream. It has
      ceil(8n/6) characters, all from the URL-safe alphabet, and never a
      padding `=` nor a standard-alphabet `+` or `/`. */
  function EncodeSpec(bytes: seq<byte>): (r: string)
    ensures |r| == (8 * |bytes| + 5) / 6
    ensures |bytes| % 3 == 0 ==> |r| == 4 * (|bytes| / 3)
    ensures forall i :: 0 <= i < |r| ==> r[i] in Base64UrlChars
    ensures '=' !in r && '+' !in r && '/' !in r
  {
    var p := PaddedBits(bytes);
    var r := GroupChars(p, |p| / 6);
    assert forall i :: 0 <= i < |r| ==> r[i] == Base64UrlChars[SextetAt(p, i)];
    forall i | 0 <= i < |r|
      ensures r[i] != '=' && r[i] != '+' && r[i] != '/'
    {
      TableExcludes(SextetAt(p, i));
    }
    r
  }

  // ---------------------------------------------------------------------------
  // Facts about groups of the bit stream
  // ---------------------------------------------------------------------------

  lemma {:induction false} GroupCharsExtend(a: seq<bool>, b: seq<bool>, n: nat)
    requires 6 * n <= |a|
    ensures GroupChars(a + b, n) == GroupChars(a, n)
  {
    forall i | 0 <= i < n
      ensures SextetAt(a + b, i) == SextetAt(a, i)
    {
      assert (a + b)[6 * i..6 * i + 6] == a[6 * i..6 * i + 6];
    }
  }

  lemma {:induction false} GroupCharsSnoc(bits: seq<bool>, n: nat)
    requires 6 * n + 6 <= |bits|
    ensures GroupChars(bits, n + 1) == GroupChars(bits, n) + [Base64UrlChars[SextetAt(bits, n)]]
  {
  }

  lemma {:induction false} GroupCharsAppend(a: seq<bool>, b: seq<bool>)
    requires |a| % 6 == 0 && |b| % 6 == 0
    ensures GroupChars(a + b, (|a| + |b|) / 6) == GroupChars(a, |a| / 6) + GroupChars(b, |b| / 6)
  {
    var k := |a| / 6;
    var l, r := GroupChars(a + b, (|a| + |b|) / 6), GroupChars(a, k) + GroupChars(b, |b| / 6);
    forall i | 0 <= i < |l|
      ensures l[i] == r[i]
    {
      if i < k {
        assert (a + b)[6 * i..6 * i + 6] == a[6 * i..6 * i + 6];
      } else {
        assert (a + b)[6 * i..6 * i + 6] == b[6 * (i - k)..6 * (i - k) + 6];
      }
    }
  }

  /** The last character of an encoding whose input leaves r = 2 or 4 bits
      over: `((val << 8) >> (valb + 8)) & 0x3F` is those bits followed by
      6 - r zero bits. */
  lemma {:induction false} TailGroupValue(val: nat, r: nat)
    requires r == 2 || r == 4
    ensures (val * 256 / Pow2(r + 2)) % 64 == (val % Pow2(r)) * Pow2(6 - r)
  {
    Pow2Values();
    if r == 2 {
      DivModUnique(val * 256, 16, val * 16, 0);
      DivModUnique(val * 16, 64, val / 4, (val % 4) * 16);
    } else {
      DivModUnique(val * 256, 64, val * 4, 0);
      DivModUnique(val * 4, 64, val / 16, (val % 16) * 4);
    }
  }

  // ---------------------------------------------------------------------------
  // The encoder as written
  // ---------------------------------------------------------------------------

  /** The accumulator loop of `Base64UrlEncode`, then its padding, alphabet
      replacement and padding removal. `val` is unbounded here: in C++20 the
      shift of the 32-bit `int` wraps, and only its low 12 bits are ever
      read, which the wrap does not change. */
  method Base64UrlEncode(bytes: seq<byte>) returns (encoded: string)
    ensures encoded == EncodeSpec(bytes)
  {
    var out: string := [];
    var val: nat := 0;
    var valb: int := -6;
    for k := 0 to |bytes|
      invariant val == BitsToNat(BytesToBits(bytes[..k]))
      invariant -6 <= valb < 0
      invariant 6 * |out| + valb + 6 == 8 * k
      invariant out == GroupChars(BytesToBits(bytes[..k]), |out|)
    {
      out, val, valb := EncodeByte(bytes, k, out, val, valb);
    }
    assert bytes[..|bytes|] == bytes;
    out := EmitTail(bytes, out, val, valb);
    encoded := FinishPasses(out);
  }

  /** One turn of the outer loop: `val = (val << 8) + c; valb += 8;`, then
      emit the complete 6-bit groups. */
  method EncodeByte(bytes: seq<byte>, k: nat, out: string, val: nat, valb: int)
    returns (out': string, val': nat, valb': int)
    requires k < |bytes|
    requires val == BitsToNat(BytesToBits(bytes[..k]))
    requires -6 <= valb < 0
    requires 6 * |out| + valb + 6 == 8 * k
    requires out == GroupChars(BytesToBits(bytes[..k]), |out|)
    ensures val' == BitsToNat(BytesToBits(bytes[..k + 1]))
    ensures -6 <= valb' < 0
    ensures 6 * |out'| + valb' + 6 == 8 * (k + 1)
    ensures out' == GroupChars(BytesToBits(bytes[..k + 1]), |out'|)
  {
    AbsorbByte(bytes, k, out, val);
    val' := val * 256 + bytes[k] as nat;
    out', valb' := EmitReadyGroups(BytesToBits(bytes[..k + 1]), out, val', valb + 8);
  }

  /** `if (valb > -6)`: the bits left in `val` become one last character,
      zero-filled on the right. */
  method EmitTail(bytes: seq<byte>, out: string, val: nat, valb: int) returns (out': string)
    requires val == BitsToNat(BytesToBits(bytes))
    requires -6 <= valb < 0
    requires 6 * |out| + valb + 6 == 8 * |bytes|
    requires out == GroupChars(BytesToBits(bytes), |out|)
    ensures out' == EncodeSpec(bytes)
  {
    if valb > -6 {
      TailGroup(bytes, out, val, valb + 6);
      out' := out + [Base64UrlChars[(val * 256 / Pow2(valb + 8)) % 64]];
    } else {
      NoTail(bytes, out);
      out' := out;
    }
  }

  /** With no bits left over the loop's output is already the encoding. */
  lemma {:induction false} NoTail(bytes: seq<byte>, out: string)
    requires 6 * |out| == 8 * |bytes|
    requires out == GroupChars(BytesToBits(bytes), |out|)
    ensures out == EncodeSpec(bytes)
  {
    DivModUnique(8 * |bytes|, 6, |out|, 0);
    assert PadBits(8 * |bytes|) == 0;
    var p := PaddedBits(bytes);
    assert p == BytesToBits(bytes) + [] == BytesToBits(bytes);
    assert |p| / 6 == |out|;
    assert EncodeSpec(bytes) == GroupChars(p, |out|);
  }

  /** The closing statements of `Base64UrlEncode`: pad with `=` to a
      multiple of 4, replace `+` by `-` and `/` by `_`, erase every `=`.
      On the loop's output they change nothing. */
  method FinishPasses(out: string) returns (encoded: string)
    requires '=' !in out && '+' !in out && '/' !in out
    ensures encoded == out
  {
    var s := Text.PadTo4(out, '=');
    s := Text.Replace(s, '+', '-');
    s := Text.Replace(s, '/', '_');
    encoded := Text.Erase(s, '=');
    PaddingPassesKeep(out);
  }

  /** The inner `while (valb >= 0)` loop: emit every complete 6-bit group
      held in `val`, leaving fewer than six bits over. */
  method EmitReadyGroups(ghost bits: seq<bool>, out: string, val: nat, valb: int)
    returns (out': string, valb': int)
    requires val == BitsToNat(bits)
    requires -6 <= valb <= 6
    requires 6 * |out| + valb + 6 == |bits|
    requires out == GroupChars(bits, |out|)
    ensures -6 <= valb' < 0
    ensures 6 * |out'| + valb' + 6 == |bits|
    ensures out' == GroupChars(bits, |out'|)
  {
    out', valb' := out, valb;
    while valb' >= 0
      invariant -6 <= valb' <= 6
      invariant 6 * |out'| + valb' + 6 == |bits|
      invariant out' == GroupChars(bits, |out'|)
      decreases valb'
    {
      EmitGroup(bits, out', val, valb');
      out' := out' + [Base64UrlChars[(val / Pow2(valb')) % 64]];
      valb' := valb' - 6;
    }
  }

  /** `val = (val << 8) + c` appends the byte's eight bits to the stream
      without disturbing the characters already emitted. */
  lemma {:induction false} AbsorbByte(bytes: seq<byte>, k: nat, out: string, val: nat)
    requires k < |bytes|
    requires val == BitsToNat(BytesToBits(bytes[..k]))
    requires 6 * |out| <= 8 * k
    requires out == GroupChars(BytesToBits(bytes[..k]), |out|)
    ensures val * 256 + bytes[k] as nat == BitsToNat(BytesToBits(bytes[..k + 1]))
    ensures out == GroupChars(BytesToBits(bytes[..k + 1]), |out|)
  {
    var prev := BytesToBits(bytes[..k]);
    assert bytes[..k + 1][..k] == bytes[..k];
    assert BytesToBits(bytes[..k + 1]) == prev + ByteBits(bytes[k]);
    BitsToNatAppend(prev, ByteBits(bytes[k]));
    ByteBitsValue(bytes[k]);
    Pow2Values();
    GroupCharsExtend(prev, ByteBits(bytes[k]), |out|);
  }

  /** `(val >> valb) & 0x3F` is the next 6-bit group of the stream. */
  lemma {:induction false} EmitGroup(bits: seq<bool>, out: string, val: nat, valb: nat)
    requires val == BitsToNat(bits)
    requires 6 * |out| + valb + 6 == |bits|
    requires out == GroupChars(bits, |out|)
    ensures out + [Base64UrlChars[(val / Pow2(valb)) % 64]] == GroupChars(bits, |out| + 1)
  {
    SextetValue(bits, |out|, valb);
    GroupCharsSnoc(bits, |out|);
  }

  /** Group n of the stream, valb bits from its end, read by shift and mask. */
  lemma {:induction false} SextetValue(bits: seq<bool>, n: nat, valb: nat)
    requires 6 * n + valb + 6 == |bits|
    ensures SextetAt(bits, n) == (BitsToNat(bits) / Pow2(valb)) % 64
  {
    Pow2Values();
    FieldValue(bits, 6 * n, 6);
  }

  /** After the loop, r = 2 or 4 bits remain in `val`; the final character
      holds them zero-filled and completes the reference encoding. */
  lemma {:induction false} TailGroup(bytes: seq<byte>, out: string, val: nat, r: nat)
    requires r == 2 || r == 4
    requires val == BitsToNat(BytesToBits(bytes))
    requires 6 * |out| + r == 8 * |bytes|
    requires out == GroupChars(BytesToBits(bytes), |out|)
    ensures out + [Base64UrlChars[(val * 256 / Pow2(r + 2)) % 64]] == EncodeSpec(bytes)
  {
    var bits, padded, n := BytesToBits(bytes), PaddedBits(bytes), |out|;
    TailBits(bytes, n, r);
    TailBitsValue(bits, n, r, val);
    GroupCharsExtend(bits, Zeros(6 - r), n);
    GroupCharsSnoc(padded, n);
  }

  /** The padded stream adds 6 - r zero bits, which fill its last group. */
  lemma {:induction false} TailBits(bytes: seq<byte>, n: nat, r: nat)
    requires r == 2 || r == 4
    requires 6 * n + r == 8 * |bytes|
    ensures PaddedBits(bytes) == BytesToBits(bytes) + Zeros(6 - r)
    ensures |PaddedBits(bytes)| == 6 * n + 6
    ensures PaddedBits(bytes)[6 * n..6 * n + 6] == BytesToBits(bytes)[6 * n..] + Zeros(6 - r)
  {
    DivModUnique(8 * |bytes|, 6, n, r);
    var bits := BytesToBits(bytes);
    assert PaddedBits(bytes) == bits + Zeros(6 - r);
    assert (bits + Zeros(6 - r))[6 * n..] == bits[6 * n..] + Zeros(6 - r);
  }

  /** The value of the last group is the tail computation of the encoder. */
  lemma {:induction false} TailBitsValue(bits: seq<bool>, n: nat, r: nat, val: nat)
    requires r == 2 || r == 4
    requires val == BitsToNat(bits) && 6 * n + r == |bits|
    ensures BitsToNat(bits[6 * n..] + Zeros(6 - r)) == (val * 256 / Pow2(r + 2)) % 64
  {
    Pow2Values();
    ZeroFillValue(bits[6 * n..], 6 - r);
    SuffixValue(bits, 6 * n);
    TailGroupValue(val, r);
  }

  /** The encoder's closing passes (pad with `=`, map `+`/`/` to `-`/`_`,
      erase `=`) leave a string of alphabet characters unchanged. */
  lemma {:induction false} PaddingPassesKeep(out: string)
    requires '=' !in out && '+' !in out && '/' !in out
    ensures Text.Erase(Text.Replace(Text.Replace(Text.PadTo4(out, '='), '+', '-'), '/', '_'), '=') == out
  {
    var s := Text.PadTo4(out, '=');
    assert s == out + s[|out|..];
    assert '+' !in s && '/' !in s;
    Text.ReplaceAbsent(s, '+', '-');
    Text.ReplaceAbsent(s, '/', '_');
    Text.PadThenErase(out, '=');
  }

  // ---------------------------------------------------------------------------
  // Properties of the encoding
  // ---------------------------------------------------------------------------

  /** Empty input encodes to the empty string. */
  lemma EncodeEmpty()
    ensures EncodeSpec([]) == ""
  {
  }

  /** Encoding distributes over whole 3-byte groups. */
  lemma {:induction false} EncodeConcat(a: seq<byte>, b: seq<byte>)
    requires |a| % 3 == 0
    ensures EncodeSpec(a + b) == EncodeSpec(a) + EncodeSpec(b)
  {
    PaddedConcat(a, b);
    GroupCharsAppend(BytesToBits(a), PaddedBits(b));
  }

  lemma {:induction false} PaddedConcat(a: seq<byte>, b: seq<byte>)
    requires |a| % 3 == 0
    ensures PaddedBits(a + b) == PaddedBits(a) + PaddedBits(b)
    ensures PaddedBits(a) == BytesToBits(a) && |BytesToBits(a)| % 6 == 0
  {
    var ba, bb, z := BytesToBits(a), BytesToBits(b), Zeros(PadBits(8 * |b|));
    BytesToBitsAppend(a, b);
    PadBitsShift(|a|, |b|);
    assert PaddedBits(a) == ba + [];
    assert PaddedBits(a + b) == (ba + bb) + z == ba + (bb + z);
  }

  /** Whole 3-byte groups need no padding and leave the padding of what
      follows them unchanged. */
  lemma {:induction false} PadBitsShift(n: nat, m: nat)
    requires n % 3 == 0
    ensures (8 * n) % 6 == 0 && PadBits(8 * n) == 0 && PadBits(8 * (n + m)) == PadBits(8 * m)
  {
    var q := n / 3;
    assert 8 * n == 6 * (4 * q) + 0;
    DivModUnique(8 * n, 6, 4 * q, 0);
    assert 8 * (n + m) == 6 * (4 * q + (8 * m) / 6) + (8 * m) % 6;
    DivModUnique(8 * (n + m), 6, 4 * q + (8 * m) / 6, (8 * m) % 6);
  }

  /** Bits j..j+w-1 of a byte, read as a number. */
  lemma {:induction false} ByteField(b: byte, j: nat, w: nat)
    requires j + w <= 8
    ensures BitsToNat(ByteBits(b)[j..j + w]) == (b as nat / Pow2(8 - j - w)) % Pow2(w)
  {
    FieldValue(ByteBits(b), j, w);
    ByteBitsValue(b);
  }

  /** Low k bits of one byte followed by the top 6 - k bits of the next. */
  lemma {:induction false} SpanValue(a: byte, b: byte, k: nat)
    requires k == 2 || k == 4
    ensures BitsToNat(ByteBits(a)[8 - k..8] + ByteBits(b)[0..6 - k])
         == (a as nat % Pow2(k)) * Pow2(6 - k) + b as nat / Pow2(2 + k)
  {
    var lo, hi := ByteBits(a)[8 - k..8], ByteBits(b)[0..6 - k];
    BitsToNatAppend(lo, hi);
    ByteBitsValue(a);
    ByteBitsValue(b);
    assert ByteBits(a)[8 - k..8] == ByteBits(a)[8 - k..];
    SuffixValue(ByteBits(a), 8 - k);
    assert ByteBits(b)[0..6 - k] == ByteBits(b)[..6 - k];
    PrefixValue(ByteBits(b), 6 - k);
  }

  lemma {:induction false} PaddedGroup(x: byte, y: byte, z: byte)
    ensures PaddedBits([x, y, z]) == ByteBits(x) + ByteBits(y) + ByteBits(z)
  {
    assert [x, y, z][..2] == [x, y] && [x, y][..1] == [x] && [x][..0] == [];
    assert BytesToBits([x]) == ByteBits(x);
    assert BytesToBits([x, y]) == ByteBits(x) + ByteBits(y);
  }

  lemma {:induction false} GroupSextets(x: byte, y: byte, z: byte)
    ensures SextetAt(PaddedBits([x, y, z]), 0) == x as nat / 4
    ensures SextetAt(PaddedBits([x, y, z]), 1) == (x as nat % 4) * 16 + y as nat / 16
    ensures SextetAt(PaddedBits([x, y, z]), 2) == (y as nat % 16) * 4 + z as nat / 64
    ensures SextetAt(PaddedBits([x, y, z]), 3) == z as nat % 64
  {
    var p := PaddedBits([x, y, z]);
    PaddedGroup(x, y, z);
    GroupSlices(ByteBits(x), ByteBits(y), ByteBits(z));
    TopSix(x);
    SpanValue(x, y, 2);
    SpanValue(y, z, 4);
    LowSix(z);
    Pow2Values();
  }

  /** Where the four 6-bit groups of three bytes come from. */
  lemma {:induction false} GroupSlices(xb: seq<bool>, yb: seq<bool>, zb: seq<bool>)
    requires |xb| == 8 && |yb| == 8 && |zb| == 8
    ensures (xb + yb + zb)[0..6] == xb[0..6]
    ensures (xb + yb + zb)[6..12] == xb[6..8] + yb[0..4]
    ensures (xb + yb + zb)[12..18] == yb[4..8] + zb[0..2]
    ensures (xb + yb + zb)[18..24] == zb[2..8]
  {
  }

  lemma {:induction false} TopSix(x: byte)
    ensures BitsToNat(ByteBits(x)[0..6]) == x as nat / 4
  {
    ByteField(x, 0, 6);
    Pow2Values();
    DivModUnique(x as nat / 4, 64, 0, x as nat / 4);
  }

  lemma {:induction false} LowSix(z: byte)
    ensures BitsToNat(ByteBits(z)[2..8]) == z as nat % 64
  {
    ByteField(z, 2, 6);
    Pow2Values();
    DivModUnique(z as nat, 1, z as nat, 0);
  }

  /** One 3-byte group in closed form: the four characters take the top six
      bits of the first byte, its low two bits with the top four of the
      second, the second's low four with the top two of the third, and the
      third's low six. */
  lemma {:induction false} EncodeGroup(x: byte, y: byte, z: byte)
    ensures EncodeSpec([x, y, z]) == [
      Base64UrlChars[x as nat / 4],
      Base64UrlChars[(x as nat % 4) * 16 + y as nat / 16],
      Base64UrlChars[(y as nat % 16) * 4 + z as nat / 64],
      Base64UrlChars[z as nat % 64]]
  {
    var p := PaddedBits([x, y, z]);
    GroupSextets(x, y, z);
    var e := EncodeSpec([x, y, z]);
    assert e == GroupChars(p, 4);
  }

  /** The fixed CASK signature bytes 25 04 09 encode to "JQQJ". */
  lemma SignatureEncoding()
    ensures EncodeSpec([0x25, 0x04, 0x09]) == "JQQJ"
  {
    var x, y, z: byte := 0x25, 0x04, 0x09;
    assert x as nat / 4 == 9 && (x as nat % 4) * 16 + y as nat / 16 == 16;
    assert (y as nat % 16) * 4 + z as nat / 64 == 16 && z as nat % 64 == 9;
    EncodeGroup(x, y, z);
    SignatureChars();
  }

  lemma SignatureChars()
    ensures Base64UrlChars[9] == 'J' && Base64UrlChars[16] == 'Q'
  {
    assert Base64UrlChars[9] == UrlChar(9);
    assert Base64UrlChars[16] == UrlChar(16);
  }
}
