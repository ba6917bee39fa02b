/** Big-endian bit streams: the common ground on which the base64url encoder
    (8-bit groups in, 6-bit groups out) and decoder (6-bit groups in, 8-bit
    groups out) are specified. */
module Bits {

  /** An unsigned 8-bit value (`uint8_t`). */
  newtype byte = x: int | 0 <= x < 256

  function Pow2(n: nat): (r: nat)
    ensures r >= 1
  {
    if n == 0 then 1 else 2 * Pow2(n - 1)
  }

  /** The unsigned value of a bit string, most significant bit first. */
  function BitsToNat(bits: seq<bool>): (r: nat)
    ensures r < Pow2(|bits|)
  {
    if |bits| == 0 then 0
    else 2 * BitsToNat(bits[..|bits| - 1]) + (if bits[|bits| - 1] then 1 else 0)
  }

  /** The low `width` bits of `v`, most significant first. */
  function NatToBits(v: nat, width: nat): (r: seq<bool>)
    ensures |r| == width
  {
    if width == 0 then [] else NatToBits(v / 2, width - 1) + [v % 2 == 1]
  }

  function Zeros(n: nat): (r: seq<bool>)
    ensures |r| == n
    ensures forall i :: 0 <= i < n ==> !r[i]
  {
    seq(n, _ => false)
  }

  /** The eight bits of one byte, most significant first. */
  function ByteBits(b: byte): (r: seq<bool>)
    ensures |r| == 8
  {
    NatToBits(b as nat, 8)
  }

  /** The big-endian bit stream of a byte sequence. */
  function BytesToBits(bs: seq<byte>): (r: seq<bool>)
    ensures |r| == 8 * |bs|
  {
    if |bs| == 0 then [] else BytesToBits(bs[..|bs| - 1]) + ByteBits(bs[|bs| - 1])
  }

  /** Successive 8-bit chunks of a bit stream; fewer than 8 leftover bits are dropped. */
  function BitsToBytes(bits: seq<bool>): (r: seq<byte>)
    ensures |r| == |bits| / 8
  {
    seq(|bits| / 8, k requires 0 <= k < |bits| / 8 => BitsToNat(bits[8 * k..8 * k + 8]) as byte)
  }

  // ---------------------------------------------------------------------------
  // Arithmetic facts
  // ---------------------------------------------------------------------------

  lemma {:induction false} MulAtLeast(x: int, d: int)
    requires x >= 1 && d > 0
    ensures x * d >= d
  {
    assert x * d == (x - 1) * d + d;
  }

  lemma {:induction false} MulMono(a: int, b: int, d: int)
    requires a >= b && d >= 0
    ensures a * d >= b * d
  {
    assert a * d - b * d == (a - b) * d;
  }

  lemma {:induction false} DivBound(v: nat, d: nat, m: nat)
    requires d > 0 && v < d * m
    ensures v / d < m
  {
    var q := v / d;
    assert q * d <= v;
    if q >= m {
      MulMono(q, m, d);
    }
  }

  lemma {:induction false} Twice(x: int, p: int)
    ensures 2 * (x * p) == x * (2 * p)
  {
  }

  lemma {:induction false} DivModUnique(v: int, d: int, q: int, r: int)
    requires d > 0 && v == q * d + r && 0 <= r < d
    ensures v / d == q && v % d == r
  {
    var q', r' := v / d, v % d;
    assert v == q' * d + r';
    assert q * d - q' * d == r' - r;
    assert (q - q') * d == q * d - q' * d;
    if q > q' {
      MulAtLeast(q - q', d);
    } else if q < q' {
      MulAtLeast(q' - q, d);
    }
  }

  lemma {:induction false} Pow2Add(m: nat, n: nat)
    ensures Pow2(m + n) == Pow2(m) * Pow2(n)
  {
    if m > 0 {
      Pow2Add(m - 1, n);
    }
  }

  lemma Pow2Values()
    ensures Pow2(2) == 4 && Pow2(4) == 16 && Pow2(6) == 64 && Pow2(8) == 256
  {
  }

  // ---------------------------------------------------------------------------
  // Values of bit strings
  // ---------------------------------------------------------------------------

  lemma {:induction false} BitsToNatAppend(a: seq<bool>, b: seq<bool>)
    ensures BitsToNat(a + b) == BitsToNat(a) * Pow2(|b|) + BitsToNat(b)
    decreases |b|
  {
    if |b| == 0 {
      assert a + b == a;
    } else {
      var b' := b[..|b| - 1];
      assert (a + b)[..|a + b| - 1] == a + b';
      BitsToNatAppend(a, b');
      var bit := if b[|b| - 1] then 1 else 0;
      var x, y, p := BitsToNat(a), BitsToNat(b'), Pow2(|b'|);
      assert BitsToNat(a + b') == x * p + y;
      assert BitsToNat(b) == 2 * y + bit;
      assert BitsToNat(a + b) == 2 * BitsToNat(a + b') + bit;
      assert Pow2(|b|) == 2 * p;
      Twice(x, p);
      assert 2 * (x * p + y) + bit == x * (2 * p) + (2 * y + bit);
    }
  }

  lemma {:induction false} ZerosValue(n: nat)
    ensures BitsToNat(Zeros(n)) == 0
  {
    if n > 0 {
      assert Zeros(n)[..n - 1] == Zeros(n - 1);
      ZerosValue(n - 1);
    }
  }

  /** Appending k zero bits multiplies the value by 2^k. */
  lemma {:induction false} ZeroFillValue(s: seq<bool>, k: nat)
    ensures BitsToNat(s + Zeros(k)) == BitsToNat(s) * Pow2(k)
  {
    BitsToNatAppend(s, Zeros(k));
    ZerosValue(k);
  }

  /** Reading a field of width w at bit offset j from the value of the whole
      stream: shift right past the bits after it, then mask w bits. */
  lemma {:induction false} FieldValue(s: seq<bool>, j: nat, w: nat)
    requires j + w <= |s|
    ensures (BitsToNat(s) / Pow2(|s| - j - w)) % Pow2(w) == BitsToNat(s[j..j + w])
  {
    var l := |s| - j - w;
    var hi, mid, lo := s[..j], s[j..j + w], s[j + w..];
    assert s == hi + mid + lo;
    BitsToNatAppend(hi + mid, lo);
    BitsToNatAppend(hi, mid);
    DivModUnique(BitsToNat(s), Pow2(l), BitsToNat(hi + mid), BitsToNat(lo));
    DivModUnique(BitsToNat(hi + mid), Pow2(w), BitsToNat(hi), BitsToNat(mid));
  }

  /** The low bits of a stream's value are the value of its suffix. */
  lemma {:induction false} SuffixValue(s: seq<bool>, j: nat)
    requires j <= |s|
    ensures BitsToNat(s) % Pow2(|s| - j) == BitsToNat(s[j..])
  {
    assert s == s[..j] + s[j..];
    BitsToNatAppend(s[..j], s[j..]);
    DivModUnique(BitsToNat(s), Pow2(|s| - j), BitsToNat(s[..j]), BitsToNat(s[j..]));
  }

  /** The high bits of a stream's value are the value of its prefix. */
  lemma {:induction false} PrefixValue(s: seq<bool>, j: nat)
    requires j <= |s|
    ensures BitsToNat(s[..j]) == BitsToNat(s) / Pow2(|s| - j)
  {
    assert s == s[..j] + s[j..];
    BitsToNatAppend(s[..j], s[j..]);
    DivModUnique(BitsToNat(s), Pow2(|s| - j), BitsToNat(s[..j]), BitsToNat(s[j..]));
  }

  lemma {:induction false} NatToBitsValue(v: nat, w: nat)
    ensures BitsToNat(NatToBits(v, w)) == v % Pow2(w)
  {
    if w > 0 {
      var r := NatToBits(v, w);
      assert r[..w - 1] == NatToBits(v / 2, w - 1);
      NatToBitsValue(v / 2, w - 1);
      assert BitsToNat(r) == 2 * ((v / 2) % Pow2(w - 1)) + v % 2;
      HalfStep(v, Pow2(w - 1));
    }
  }

  lemma {:induction false} HalfStep(v: nat, p: nat)
    requires p >= 1
    ensures v % (2 * p) == 2 * ((v / 2) % p) + v % 2
  {
    var h := v / 2;
    var q, m := h / p, h % p;
    assert h == q * p + m;
    assert v == 2 * h + v % 2;
    Twice(q, p);
    assert v == q * (2 * p) + (2 * m + v % 2);
    DivModUnique(v, 2 * p, q, 2 * m + v % 2);
  }

  lemma {:induction false} BitsOfValue(s: seq<bool>)
    ensures NatToBits(BitsToNat(s), |s|) == s
    decreases |s|
  {
    if |s| > 0 {
      var s' := s[..|s| - 1];
      var b := if s[|s| - 1] then 1 else 0;
      BitsOfValue(s');
      assert (2 * BitsToNat(s') + b) / 2 == BitsToNat(s');
      assert s == s' + [s[|s| - 1]];
    }
  }

  // ---------------------------------------------------------------------------
  // Byte streams
  // ---------------------------------------------------------------------------

  lemma {:induction false} BytesToBitsAppend(a: seq<byte>, b: seq<byte>)
    ensures BytesToBits(a + b) == BytesToBits(a) + BytesToBits(b)
    decreases |b|
  {
    if |b| == 0 {
      assert a + b == a;
    } else {
      var b' := b[..|b| - 1];
      assert (a + b)[..|a + b| - 1] == a + b';
      BytesToBitsAppend(a, b');
    }
  }

  lemma {:induction false} BytesToBitsChunk(bs: seq<byte>, k: nat)
    requires k < |bs|
    ensures BytesToBits(bs)[8 * k..8 * k + 8] == ByteBits(bs[k])
    decreases |bs|
  {
    var last := |bs| - 1;
    if k < last {
      BytesToBitsChunk(bs[..last], k);
    }
  }

  lemma {:induction false} ByteBitsValue(b: byte)
    ensures BitsToNat(ByteBits(b)) == b as nat
  {
    NatToBitsValue(b as nat, 8);
    Pow2Values();
  }

  /** Chunking the bit stream of bytes, followed by fewer than 8 extra bits,
      gives the bytes back. */
  lemma {:induction false} BytesRoundTrip(bs: seq<byte>, extra: seq<bool>)
    requires |extra| < 8
    ensures BitsToBytes(BytesToBits(bs) + extra) == bs
  {
    var s := BytesToBits(bs) + extra;
    var r := BitsToBytes(s);
    assert |r| == |bs|;
    forall k | 0 <= k < |bs|
      ensures r[k] == bs[k]
    {
      assert s[8 * k..8 * k + 8] == BytesToBits(bs)[8 * k..8 * k + 8];
      BytesToBitsChunk(bs, k);
      ByteBitsValue(bs[k]);
    }
  }

  /** Appending bits never changes the bytes already complete. */
  lemma {:induction false} BitsToBytesPrefix(a: seq<bool>, b: seq<bool>)
    ensures BitsToBytes(a + b)[..|a| / 8] == BitsToBytes(a)
  {
    var r := BitsToBytes(a + b);
    forall k | 0 <= k < |a| / 8
      ensures r[k] == BitsToBytes(a)[k]
    {
      assert (a + b)[8 * k..8 * k + 8] == a[8 * k..8 * k + 8];
    }
  }

  /** Appending bits that complete no byte leaves the bytes as they are. */
  lemma {:induction false} BitsToBytesNoNewByte(a: seq<bool>, b: seq<bool>)
    requires (|a| + |b|) / 8 == |a| / 8
    ensures BitsToBytes(a + b) == BitsToBytes(a)
  {
    BitsToBytesPrefix(a, b);
    assert BitsToBytes(a + b) == BitsToBytes(a + b)[..|a| / 8];
  }

  /** Appending bits that complete one byte adds it: the 8 bits at
      offset `8 * (|a| / 8)` of the extended stream. */
  lemma {:induction false} BitsToBytesNewByte(a: seq<bool>, b: seq<bool>)
    requires (|a| + |b|) / 8 == |a| / 8 + 1
    ensures BitsToBytes(a + b) ==
      BitsToBytes(a) + [BitsToNat((a + b)[8 * (|a| / 8)..8 * (|a| / 8) + 8]) as byte]
  {
    var r := BitsToBytes(a + b);
    var n := |a| / 8;
    BitsToBytesPrefix(a, b);
    assert r == r[..n] + [r[n]];
  }

  /** The byte at offset 8n of a stream, read from the stream's value. */
  lemma {:induction false} ByteAt(s: seq<bool>, n: nat)
    requires 8 * n + 8 <= |s|
    ensures BitsToNat(s[8 * n..8 * n + 8]) == (BitsToNat(s) / Pow2(|s| - 8 * n - 8)) % 256
  {
    FieldValue(s, 8 * n, 8);
    Pow2Values();
  }
}
