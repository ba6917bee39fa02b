/** `Base64Url::DecodeFromChars` and `DecodeBase64` of src/libcask/base64url.h:
    map the URL-safe characters to the standard alphabet, re-pad with `=`,
    then accumulate 6-bit groups into bytes written to a destination span. */
module Decoder {
  import opened Results
  import opened Bits
  import opened Helpers
  import Text

  // ---------------------------------------------------------------------------
  // The standard alphabet and `std::string::find`
  // ---------------------------------------------------------------------------

  /** Index v of the standard alphabet: the URL-safe one with `+` and `/`
      in place of `-` and `_`. */
  function StdChar(v: nat): char
    requires v < 64
  {
    if v == 62 then '+' else if v == 63 then '/' else UrlChar(v)
  }

  /** The table "ABC...xyz0123456789+/" of `DecodeBase64`. */
  function StdTable(): (t: string)
    ensures |t| == 64
    ensures forall v :: 0 <= v < 64 ==> t[v] == StdChar(v)
  {
    seq(64, v requires 0 <= v < 64 => StdChar(v))
  }

  const StandardChars: string := StdTable()

  /** The table is the 64-character literal of `DecodeBase64`: the URL-safe
      table with its last two entries replaced. */
  lemma StdTableLiteral()
    ensures StandardChars
         == "ABCDEFGHIJKLMNOPQRSTUVWXYZ" + "abcdefghijklmnopqrstuvwxyz" + "0123456789" + "+/"
    ensures StandardChars == Base64UrlChars[..62] + "+/"
  {
    var upper, lower, digits := "ABCDEFGHIJKLMNOPQRSTUVWXYZ", "abcdefghijklmnopqrstuvwxyz", "0123456789";
    UrlTableLiteral();
    assert Base64UrlChars[..62] == upper + lower + digits;
    forall i | 0 <= i < 62 ensures StandardChars[i] == Base64UrlChars[i] { }
    assert StandardChars == Base64UrlChars[..62] + "+/";
  }

  /** `std::string::find(c)`: the first position of `c`, or None for `npos`. */
  function Find(s: string, c: char): (r: Option<nat>)
    ensures r.Some? ==> r.value < |s| && s[r.value] == c
    ensures r.Some? ==> forall k :: 0 <= k < r.value ==> s[k] != c
    ensures r.None? <==> c !in s
  {
    if |s| == 0 then None
    else if s[0] == c then Some(0)
    else match Find(s[1..], c)
      case None => None
      case Some(k) => Some(k + 1)
  }

  /** The characters of the standard table, by range. */
  predicate IsStandardChar(c: char) {
    ('A' <= c <= 'Z') || ('a' <= c <= 'z') || ('0' <= c <= '9') || c == '+' || c == '/'
  }

  /** The position of a standard character in the table, by range (0 for
      any other character, where the decoder has already thrown). */
  function StdValue(c: char): (v: nat)
    ensures v < 64
    ensures IsStandardChar(c) ==> StdChar(v) == c
  {
    if 'A' <= c <= 'Z' then c as int - 'A' as int
    else if 'a' <= c <= 'z' then c as int - 'a' as int + 26
    else if '0' <= c <= '9' then c as int - '0' as int + 52
    else if c == '+' then 62
    else if c == '/' then 63
    else 0
  }

  lemma {:induction false} StdCharIsStandard(v: nat)
    requires v < 64
    ensures IsStandardChar(StdChar(v)) && StdValue(StdChar(v)) == v
  {
  }

  /** `find` on the table: the character's position exactly when the
      range test holds, `npos` otherwise. */
  lemma {:induction false} FindInTable(c: char)
    ensures IsStandardChar(c) ==> Find(StandardChars, c) == Some(StdValue(c))
    ensures !IsStandardChar(c) ==> Find(StandardChars, c) == None
  {
    var r := Find(StandardChars, c);
    if IsStandardChar(c) {
      var v := StdValue(c);
      assert StandardChars[v] == c;
      StdCharIsStandard(r.value);
    } else if r.Some? {
      StdCharIsStandard(r.value);
    }
  }

  /** URL-safe character v becomes standard character v under the
      `-`/`+` and `_`/`/` replacements. */
  function ToStandard(s: string): (r: string)
    ensures |r| == |s|
  {
    Text.Replace(Text.Replace(s, '-', '+'), '_', '/')
  }

  lemma {:induction false} ToStandardChar(s: string, k: nat)
    requires k < |s|
    ensures ToStandard(s)[k] == (if s[k] == '-' then '+' else if s[k] == '_' then '/' else s[k])
  {
  }

  // ---------------------------------------------------------------------------
  // Outcomes
  // ---------------------------------------------------------------------------

  /** The `std::invalid_argument` exceptions of `DecodeBase64`, and the
      out-of-bounds read `input[in_len - 1]` on empty input. */
  datatype DecodeError = InvalidLength | DestinationTooSmall | InvalidCharacter | ReadBeforeInput

  /** The returned byte count with the destination afterwards, or the
      exception with the destination as it was when thrown. */
  datatype DecodeOutcome =
    | Wrote(count: nat, dest: seq<byte>)
    | Threw(error: DecodeError, dest: seq<byte>)

  // ---------------------------------------------------------------------------
  // Reference definition over the bit stream
  // ---------------------------------------------------------------------------

  /** Where the loop stops: the first `=`, or the end. */
  function PadIndex(s: string): (m: nat)
    ensures m <= |s|
    ensures m < |s| ==> s[m] == '='
    ensures forall k :: 0 <= k < m ==> s[k] != '='
  {
    if |s| == 0 then 0
    else if s[0] == '=' then 0
    else 1 + PadIndex(s[1..])
  }

  predicate AllStandard(s: string) {
    forall k :: 0 <= k < |s| ==> IsStandardChar(s[k])
  }

  /** The 6-bit groups of the characters, most significant first. */
  function SextetStream(s: string): (bits: seq<bool>)
    ensures |bits| == 6 * |s|
  {
    if |s| == 0 then [] else SextetStream(s[..|s| - 1]) + NatToBits(StdValue(s[|s| - 1]), 6)
  }

  /** The reference decoding: successive 8-bit chunks of the 6-bit stream,
      fewer than 8 leftover bits discarded. */
  function DecodeSpec(s: string): (r: seq<byte>)
    ensures |r| == 6 * |s| / 8
  {
    BitsToBytes(SextetStream(s))
  }

  /** Position of the first character of `s[..m]` outside the standard alphabet, or m. */
  function FirstInvalid(s: string, m: nat): (b: nat)
    requires m <= |s|
    ensures b <= m
    ensures AllStandard(s[..b])
    ensures b < m ==> !IsStandardChar(s[b])
    decreases m
  {
    if m == 0 then 0
    else
      var b := FirstInvalid(s, m - 1);
      if b < m - 1 then b
      else if IsStandardChar(s[m - 1]) then
        assert s[..m] == s[..m - 1] + [s[m - 1]];
        m
      else m - 1
  }

  /** Bytes the loop writes: six bits per character before the first `=`, in whole bytes. */
  function DecodedLength(input: string): nat {
    6 * PadIndex(input) / 8
  }

  /** What the accumulator loop produces, stated over the bit stream: the
      decoding of the characters before the first `=` (or, up to the first
      character outside the alphabet, those bytes and an exception). */
  function LoopOutcome(input: string, dest: seq<byte>): (r: DecodeOutcome)
    requires DecodedLength(input) <= |dest|
    ensures |r.dest| == |dest|
    ensures r.Wrote? <==> AllStandard(input[..PadIndex(input)])
    ensures r.Threw? ==> r.error == InvalidCharacter
    ensures r.Wrote? ==> r.count == DecodedLength(input)
    ensures r.Wrote? ==> r.dest[..r.count] == DecodeSpec(input[..PadIndex(input)])
    ensures r.dest[DecodedLength(input)..] == dest[DecodedLength(input)..]
  {
    var m := PadIndex(input);
    var b := FirstInvalid(input, m);
    var bytes := DecodeSpec(input[..b]);
    FirstInvalidNone(input, m);
    assert |bytes| <= DecodedLength(input);
    if b < m then Threw(InvalidCharacter, bytes + dest[|bytes|..])
    else Wrote(|bytes|, bytes + dest[|bytes|..])
  }

  // ---------------------------------------------------------------------------
  // The decoder as written
  // ---------------------------------------------------------------------------

  /** The loop of lines 44-63: stop at `=`; throw on a character `find`
      does not know; shift the 6-bit value into `buffer`; once 8 bits are
      collected, write the top byte to `destination[j++]`. The 32-bit
      `buffer` is unbounded here: its wrap-around never reaches the at most
      14 low bits that are read. The requires is the room the writes need,
      which each caller's `out_len` check provides. */
  method AccumulateLoop(input: string, dest: seq<byte>) returns (r: DecodeOutcome)
    requires DecodedLength(input) <= |dest|
    ensures r == LoopOutcome(input, dest)
  {
    var st := LoopState(0, 0, 0, dest);
    var i := 0;
    assert input[..0] == [];
    while i < |input|
      invariant Accumulated(input, dest, i, st)
    {
      if input[i] == '=' {
        break;
      }
      var pos := Find(StandardChars, input[i]);
      FindInTable(input[i]);
      if pos.None? {
        InvalidAt(input, dest, i, st);
        return Threw(InvalidCharacter, st.d);
      }
      Consumes(input, dest, i, st);
      st := Shift(st, pos.value);
      i := i + 1;
    }
    Finished(input, dest, i, st);
    r := Wrote(st.j, st.d);
  }

  /** The loop's variables: the bit buffer, the number of bits collected
      and not yet written, the write position `j` and the destination. */
  datatype LoopState = LoopState(buffer: nat, bitsCollected: nat, j: nat, d: seq<byte>)

  /** Lines 52-61 for a character of value `v`: shift it into the buffer;
      once 8 bits are collected, write the byte above the bits still pending
      to `destination[j++]`. */
  function Shift(st: LoopState, v: nat): (r: LoopState)
    requires st.bitsCollected + 6 < 8 || st.j < |st.d|
    ensures 8 * r.j + r.bitsCollected == 8 * st.j + st.bitsCollected + 6
    ensures r.buffer == st.buffer * 64 + v
    ensures st.bitsCollected < 8 ==> r.bitsCollected < 8
    ensures |r.d| == |st.d|
    ensures r.j == st.j + 1 ==> r.d[st.j] == TopByte(r.buffer, r.bitsCollected)
    ensures r.j == st.j ==> r.d == st.d
  {
    if st.bitsCollected + 6 >= 8 then
      var buffer, pending := st.buffer * 64 + v, st.bitsCollected + 6 - 8;
      LoopState(buffer, pending, st.j + 1, st.d[st.j := TopByte(buffer, pending)])
    else
      LoopState(st.buffer * 64 + v, st.bitsCollected + 6, st.j, st.d)
  }

  /** The byte written once 8 bits are collected: bits `pending` to
      `pending + 7` of the buffer. */
  function TopByte(buffer: nat, pending: nat): byte {
    ((buffer / Pow2(pending)) % 256) as byte
  }

  /** When the buffer holds no more than `pending + 8` bits, the byte is the
      whole buffer with the pending bits shifted out: the mask drops nothing. */
  lemma {:induction false} TopByteExact(buffer: nat, pending: nat)
    requires buffer < Pow2(pending + 8)
    ensures TopByte(buffer, pending) as nat == buffer / Pow2(pending)
  {
    var p := Pow2(pending);
    assert Pow2(pending + 8) == p * 256 by {
      Pow2Add(pending, 8);
      Pow2Values();
    }
    DivBound(buffer, p, 256);
  }

  /** Bits of the buffer from `pending + 8` up do not reach the written byte. */
  lemma {:induction false} TopByteLowBits(buffer: nat, pending: nat, keep: nat)
    requires pending + 8 <= keep
    ensures TopByte(buffer % Pow2(keep), pending) == TopByte(buffer, pending)
  {
    var rest := Pow2(keep - pending - 8);
    assert Pow2(keep) == Pow2(pending) * (256 * rest) by {
      Pow2Add(pending, keep - pending);
      Pow2Add(8, keep - pending - 8);
      Pow2Values();
    }
    ByteAboveLowBits(buffer, Pow2(pending), rest);
  }

  /** Reducing modulo a multiple of `256 * p` keeps byte `(v / p) % 256`. */
  lemma {:induction false} ByteAboveLowBits(v: nat, p: nat, rest: nat)
    requires p >= 1 && rest >= 1
    ensures ((v % (p * (256 * rest))) / p) % 256 == (v / p) % 256
  {
    var k := p * (256 * rest);
    var high := v / k * rest;
    var b := v % k;
    var c := b / p;
    assert v == (256 * high + c) * p + b % p by {
      assert v == v / k * k + b;
      assert v / k * k == (256 * high) * p;
      assert b == c * p + b % p;
    }
    DivModUnique(v, p, 256 * high + c, b % p);
    DivModUnique(256 * high + c, 256, high + c / 256, c % 256);
  }

  /** The source's `uint32_t buffer` is the unbounded buffer modulo 2^32:
      shifting left by 6 and or-ing in a 6-bit value is `* 64 + v` on the
      residue. */
  lemma {:induction false} WrappedShift(buffer: nat, v: nat)
    requires v < 64
    ensures ((buffer % 0x1_0000_0000) * 64 + v) % 0x1_0000_0000 == (buffer * 64 + v) % 0x1_0000_0000
  {
    var m := 0x1_0000_0000;
    var q, b := buffer / m, buffer % m;
    var t := b * 64 + v;
    assert buffer * 64 + v == (q * 64 + t / m) * m + t % m by {
      assert buffer == q * m + b;
      assert t == (t / m) * m + t % m;
    }
    DivModUnique(buffer * 64 + v, m, q * 64 + t / m, t % m);
  }

  /** Reading a wrapped 32-bit buffer writes the same byte, since the loop
      keeps fewer than 8 bits pending. */
  lemma {:induction false} TopByteWrapHarmless(buffer: nat, pending: nat)
    requires pending < 8
    ensures TopByte(buffer % 0x1_0000_0000, pending) == TopByte(buffer, pending)
  {
    assert Pow2(32) == 0x1_0000_0000 by {
      Pow2Add(16, 16);
      Pow2Add(8, 8);
      Pow2Values();
    }
    TopByteLowBits(buffer, pending, 32);
  }

  /** The loop invariant after `i` characters: none of them is `=` and all
      are in the alphabet, the buffer holds their bits, `j` bytes are
      complete with the remaining bits pending, and the destination holds
      the decoded bytes in front of its untouched rest. */
  ghost predicate Accumulated(input: string, dest: seq<byte>, i: nat, st: LoopState) {
    i <= PadIndex(input) && st.bitsCollected < 8 && st.j <= |dest|
    && AllStandard(input[..i])
    && st.buffer == BitsToNat(SextetStream(input[..i]))
    && 8 * st.j + st.bitsCollected == 6 * i
    && st.d == DecodeSpec(input[..i]) + dest[st.j..]
  }

  /** One character of the alphabet keeps the invariant. */
  lemma {:induction false} Consumes(input: string, dest: seq<byte>, i: nat, st: LoopState)
    requires DecodedLength(input) <= |dest| && Accumulated(input, dest, i, st)
    requires i < |input| && input[i] != '=' && IsStandardChar(input[i])
    ensures st.bitsCollected + 6 < 8 || st.j < |st.d|
    ensures Accumulated(input, dest, i + 1, Shift(st, StdValue(input[i])))
  {
    StandardExtend(input, i);
    NextValue(input, i, st.buffer, StdValue(input[i]));
    if st.bitsCollected + 6 >= 8 {
      assert i < PadIndex(input);
      ConsumesWriting(input, dest, i, st, StdValue(input[i]));
    } else {
      NextBytesSame(input, i, st.j, st.bitsCollected);
    }
  }

  /** A character that completes a byte keeps the invariant. */
  lemma {:induction false} ConsumesWriting(input: string, dest: seq<byte>, i: nat, st: LoopState, v: nat)
    requires DecodedLength(input) <= |dest| && Accumulated(input, dest, i, st)
    requires i < PadIndex(input) && st.bitsCollected + 6 >= 8
    requires AllStandard(input[..i + 1])
    requires st.buffer * 64 + v == BitsToNat(SextetStream(input[..i + 1]))
    ensures st.j < |st.d|
    ensures i + 1 <= PadIndex(input)
    ensures Shift(st, v).bitsCollected < 8
    ensures Shift(st, v).j <= |dest|
    ensures AllStandard(input[..i + 1])
    ensures Shift(st, v).buffer == BitsToNat(SextetStream(input[..i + 1]))
    ensures 8 * Shift(st, v).j + Shift(st, v).bitsCollected == 6 * (i + 1)
    ensures Shift(st, v).d == DecodeSpec(input[..i + 1]) + dest[Shift(st, v).j..]
  {
    var next, pending := st.buffer * 64 + v, st.bitsCollected + 6 - 8;
    var out := TopByte(next, pending);
    NextBytesWrite(input, dest, i, st.j, pending, out);
    ShiftWrites(st, v);
    var r := Shift(st, v);
    assert r.j == st.j + 1 && r.bitsCollected == pending && r.buffer == next;
    assert r.d == st.d[st.j := out];
    assert r.d == DecodeSpec(input[..i + 1]) + dest[r.j..];
  }

  /** A character that completes a byte: the state after `Shift`, field by field. */
  lemma {:induction false} ShiftWrites(st: LoopState, v: nat)
    requires st.bitsCollected + 6 >= 8 && st.j < |st.d|
    ensures var next, pending := st.buffer * 64 + v, st.bitsCollected + 6 - 8;
      Shift(st, v) == LoopState(next, pending, st.j + 1, st.d[st.j := TopByte(next, pending)])
  {
  }

  /** The buffer after one more character of the alphabet. */
  lemma {:induction false} NextValue(input: string, i: nat, buffer: nat, v: nat)
    requires i < |input| && v == StdValue(input[i])
    requires buffer == BitsToNat(SextetStream(input[..i]))
    ensures buffer * 64 + v == BitsToNat(SextetStream(input[..i + 1]))
  {
    var prev := SextetStream(input[..i]);
    StreamSnoc(input, i);
    BitsToNatAppend(prev, NatToBits(v, 6));
    NatToBitsValue(v, 6);
    Pow2Values();
    DivModUnique(v, 64, 0, v);
  }

  lemma {:induction false} StandardExtend(input: string, i: nat)
    requires i < |input| && AllStandard(input[..i]) && IsStandardChar(input[i])
    ensures AllStandard(input[..i + 1])
  {
    assert input[..i + 1] == input[..i] + [input[i]];
  }

  /** One more character extends the stream by its six bits. */
  lemma {:induction false} StreamSnoc(s: string, i: nat)
    requires i < |s|
    ensures SextetStream(s[..i + 1]) == SextetStream(s[..i]) + NatToBits(StdValue(s[i]), 6)
  {
    assert s[..i + 1][..i] == s[..i];
  }

  /** A character that completes no byte leaves the decoded bytes as they are. */
  lemma {:induction false} NextBytesSame(input: string, i: nat, j: nat, bitsCollected: nat)
    requires i < |input|
    requires bitsCollected + 6 < 8 && 8 * j + bitsCollected == 6 * i
    ensures DecodeSpec(input[..i + 1]) == DecodeSpec(input[..i])
  {
    var t := input[..i + 1];
    assert t[..i] == input[..i];
    LastCompletesNoByte(t, j, bitsCollected);
  }

  /** The same over the string whose last character is the new one. */
  lemma {:induction false} LastCompletesNoByte(t: string, j: nat, bitsCollected: nat)
    requires |t| > 0
    requires bitsCollected + 6 < 8 && 8 * j + bitsCollected == 6 * (|t| - 1)
    ensures DecodeSpec(t) == DecodeSpec(t[..|t| - 1])
  {
    var prev, tail := SextetStream(t[..|t| - 1]), NatToBits(StdValue(t[|t| - 1]), 6);
    assert SextetStream(t) == prev + tail;
    DivModUnique(|prev|, 8, j, bitsCollected);
    DivModUnique(|prev| + |tail|, 8, j, bitsCollected + 6);
    BitsToBytesNoNewByte(prev, tail);
  }

  /** A character that completes a byte writes it at position j: the byte is
      the 8 bits of the stream above the `bitsCollected` bits still pending. */
  lemma {:induction false} NextBytesWrite(input: string, dest: seq<byte>, i: nat, j: nat, bitsCollected: nat, out: byte)
    requires i < PadIndex(input) && DecodedLength(input) <= |dest|
    requires bitsCollected < 6
    requires 8 * j + bitsCollected + 8 == 6 * i + 6
    requires out == TopByte(BitsToNat(SextetStream(input[..i + 1])), bitsCollected)
    ensures j < |dest|
    ensures (DecodeSpec(input[..i]) + dest[j..])[j := out] == DecodeSpec(input[..i + 1]) + dest[j + 1..]
  {
    NextByte(input, i, j, bitsCollected, out);
    assert j < 6 * PadIndex(input) / 8;
    WriteNext(DecodeSpec(input[..i]), dest, j, out);
  }

  /** The decoded bytes after a character that completes one. */
  lemma {:induction false} NextByte(input: string, i: nat, j: nat, bitsCollected: nat, out: byte)
    requires i < |input| && bitsCollected < 6
    requires 8 * j + bitsCollected + 8 == 6 * i + 6
    requires out == TopByte(BitsToNat(SextetStream(input[..i + 1])), bitsCollected)
    ensures DecodeSpec(input[..i + 1]) == DecodeSpec(input[..i]) + [out]
  {
    var prev, tail := SextetStream(input[..i]), NatToBits(StdValue(input[i]), 6);
    StreamSnoc(input, i);
    DivModUnique(|prev|, 8, j, bitsCollected + 2);
    DivModUnique(|prev| + |tail|, 8, j + 1, bitsCollected);
    BitsToBytesNewByte(prev, tail);
    ByteAt(prev + tail, j);
    assert BitsToNat((prev + tail)[8 * j..8 * j + 8]) as byte == out;
  }

  /** Writing the next decoded byte over the destination. */
  lemma {:induction false} WriteNext(written: seq<byte>, dest: seq<byte>, j: nat, out: byte)
    requires |written| == j < |dest|
    ensures (written + dest[j..])[j := out] == (written + [out]) + dest[j + 1..]
  {
  }

  /** The loop's exception is `LoopOutcome`'s. */
  lemma {:induction false} InvalidAt(input: string, dest: seq<byte>, i: nat, st: LoopState)
    requires DecodedLength(input) <= |dest| && Accumulated(input, dest, i, st)
    requires i < |input| && input[i] != '=' && !IsStandardChar(input[i])
    ensures Threw(InvalidCharacter, st.d) == LoopOutcome(input, dest)
  {
    assert i < PadIndex(input);
    FirstInvalidAt(input, PadIndex(input), i);
    var bytes := DecodeSpec(input[..i]);
    assert |bytes| == st.j by {
      DivModUnique(6 * i, 8, st.j, 6 * i - 8 * st.j);
    }
  }

  /** The loop's result on reaching `=` or the end is `LoopOutcome`'s. */
  lemma {:induction false} Finished(input: string, dest: seq<byte>, i: nat, st: LoopState)
    requires DecodedLength(input) <= |dest| && Accumulated(input, dest, i, st)
    requires i == |input| || input[i] == '='
    ensures Wrote(st.j, st.d) == LoopOutcome(input, dest)
  {
    var m := PadIndex(input);
    assert i == m;
    FirstInvalidNone(input, m);
    DivModUnique(6 * i, 8, st.j, 6 * i - 8 * st.j);
    assert |DecodeSpec(input[..i])| == st.j;
  }

  lemma {:induction false} FirstInvalidNone(s: string, m: nat)
    requires m <= |s|
    ensures AllStandard(s[..m]) <==> FirstInvalid(s, m) == m
  {
    var b := FirstInvalid(s, m);
    if b < m {
      assert !IsStandardChar(s[..m][b]);
    }
  }

  /** When the first i characters are standard and the next is not, the
      first invalid position is i. */
  lemma {:induction false} FirstInvalidAt(s: string, m: nat, i: nat)
    requires i < m <= |s|
    requires AllStandard(s[..i]) && !IsStandardChar(s[i])
    ensures FirstInvalid(s, m) == i
    decreases m
  {
    if m - 1 > i {
      FirstInvalidAt(s, m - 1, i);
    }
  }

  // ---------------------------------------------------------------------------
  // DecodeBase64: length checks around the loop
  // ---------------------------------------------------------------------------

  /** `out_len` of lines 36-38 as written: three bytes per four characters,
      one less for each `=` among the last two. It reads `input[in_len - 1]`
      and `input[in_len - 2]`, so it needs two characters. */
  function OutLenAsWritten(input: string): (r: int)
    requires |input| >= 2
    ensures |input| / 4 * 3 - 2 <= r <= |input| / 4 * 3
    ensures |input| % 4 == 0 && |input| - 2 <= PadIndex(input)
      && (forall k :: PadIndex(input) <= k < |input| ==> input[k] == '=')
      ==> r == DecodedLength(input)
  {
    |input| / 4 * 3
      - (if input[|input| - 1] == '=' then 1 else 0)
      - (if input[|input| - 2] == '=' then 1 else 0)
  }

  /** `DecodeBase64` as written: a length that is not a multiple of 4 throws;
      empty input then reads before the string (modelled as an error of its
      own); a destination shorter than `out_len` throws; otherwise the loop
      runs. */
  function DecodeBase64AsWritten(input: string, dest: seq<byte>): (r: DecodeOutcome)
    ensures |r.dest| == |dest|
    ensures r == Threw(InvalidLength, dest) <==> |input| % 4 != 0
    ensures r == Threw(ReadBeforeInput, dest) <==> |input| == 0
    ensures r.Threw? && r.error != InvalidCharacter ==> r.dest == dest
    ensures r == Threw(DestinationTooSmall, dest) <==>
      |input| > 0 && |input| % 4 == 0 && |dest| < OutLenAsWritten(input)
    ensures r.Wrote? <==>
      |input| > 0 && |input| % 4 == 0 && OutLenAsWritten(input) <= |dest| && AllStandard(input[..PadIndex(input)])
    ensures r.Wrote? ==> r.count <= OutLenAsWritten(input) <= |dest|
    ensures r.Wrote? ==> r.count == DecodedLength(input) && r.dest[..r.count] == DecodeSpec(input[..PadIndex(input)])
  {
    if |input| % 4 != 0 then Threw(InvalidLength, dest)
    else if |input| == 0 then Threw(ReadBeforeInput, dest)
    else if |dest| < OutLenAsWritten(input) then Threw(DestinationTooSmall, dest)
    else
      OutLenCoversWrites(input);
      LoopOutcome(input, dest)
  }

  /** For non-empty input of a length the check admits, `out_len` is at least
      the number of bytes the loop writes, so the writes stay in bounds. */
  lemma {:induction false} OutLenCoversWrites(input: string)
    requires |input| % 4 == 0 && |input| > 0
    ensures DecodedLength(input) <= OutLenAsWritten(input)
  {
    var l, m := |input|, PadIndex(input);
    if input[l - 2] == '=' {
      assert m <= l - 2;
    } else if input[l - 1] == '=' {
      assert m <= l - 1;
    }
  }

  /** `DecodeBase64` with the destination check against the number of bytes
      the loop writes, and no read before empty input. */
  function DecodeBase64(input: string, dest: seq<byte>): (r: DecodeOutcome)
    ensures |r.dest| == |dest|
    ensures r == Threw(InvalidLength, dest) <==> |input| % 4 != 0
    ensures r == Threw(DestinationTooSmall, dest) <==>
      |input| % 4 == 0 && |dest| < DecodedLength(input)
    ensures r.Threw? ==> r.error != ReadBeforeInput
    ensures r.Wrote? <==>
      |input| % 4 == 0 && DecodedLength(input) <= |dest| && AllStandard(input[..PadIndex(input)])
    ensures r.Wrote? ==> r.count == DecodedLength(input)
    ensures r.Wrote? ==> r.dest[..r.count] == DecodeSpec(input[..PadIndex(input)])
    ensures r.Wrote? ==> r.dest[r.count..] == dest[r.count..]
  {
    if |input| % 4 != 0 then Threw(InvalidLength, dest)
    else if |dest| < DecodedLength(input) then Threw(DestinationTooSmall, dest)
    else LoopOutcome(input, dest)
  }

  // ---------------------------------------------------------------------------
  // DecodeFromChars: the URL-safe entry point
  // ---------------------------------------------------------------------------

  /** The standard-alphabet string `DecodeFromChars` hands to `DecodeBase64`:
      `-` and `_` replaced by `+` and `/`, then `=` appended to a multiple of 4. */
  function Prepared(source: string): (r: string)
    ensures |r| % 4 == 0 && |source| <= |r| < |source| + 4
  {
    Text.PadTo4(ToStandard(source), '=')
  }

  /** `DecodeFromChars` as written, over `DecodeBase64AsWritten`. */
  function DecodeFromCharsAsWritten(source: string, dest: seq<byte>): (r: DecodeOutcome)
    ensures |r.dest| == |dest|
    ensures r.Threw? ==> r.error != InvalidLength
    ensures r == Threw(ReadBeforeInput, dest) <==> |source| == 0
  {
    DecodeBase64AsWritten(Prepared(source), dest)
  }

  /** `DecodeFromChars` over the corrected `DecodeBase64`. */
  function DecodeFromChars(source: string, dest: seq<byte>): (r: DecodeOutcome)
    ensures |r.dest| == |dest|
    ensures r.Threw? ==> r.error != InvalidLength && r.error != ReadBeforeInput
    ensures r.Wrote? ==> r.count <= |dest| && r.dest[r.count..] == dest[r.count..]
  {
    DecodeBase64(Prepared(source), dest)
  }

  // ---------------------------------------------------------------------------
  // Properties of DecodeFromChars
  // ---------------------------------------------------------------------------

  /** The characters `DecodeFromChars` accepts: the URL-safe alphabet, and
      also the standard `+` and `/`, since the replacement leaves them alone. */
  predicate IsAcceptedChar(c: char) {
    IsValidBase64UrlCharacter(c) || c == '+' || c == '/'
  }

  lemma {:induction false} ToStandardAccepted(s: string, k: nat)
    requires k < |s|
    ensures IsStandardChar(ToStandard(s)[k]) <==> IsAcceptedChar(s[k])
    ensures ToStandard(s)[k] == '=' <==> s[k] == '='
  {
    ToStandardChar(s, k);
  }

  /** Without `=` in the source, the loop stops exactly at the appended
      padding, and sees the replaced source before it. */
  lemma {:induction false} PreparedShape(source: string)
    requires '=' !in source
    ensures PadIndex(Prepared(source)) == |source|
    ensures Prepared(source)[..|source|] == ToStandard(source)
  {
    var p := Prepared(source);
    forall k | 0 <= k < |source|
      ensures p[k] != '='
    {
      assert p[k] == ToStandard(source)[k];
      ToStandardAccepted(source, k);
    }
    if |source| < |p| {
      assert p[|source|] == '=';
    }
  }

  /** A source of accepted characters decodes to the 8-bit chunks of its
      6-bit stream: 6n/8 bytes for n characters, 3 per group of 4. */
  lemma {:induction false} FromCharsDecodes(source: string, dest: seq<byte>)
    requires '=' !in source
    requires forall k :: 0 <= k < |source| ==> IsAcceptedChar(source[k])
    requires 6 * |source| / 8 <= |dest|
    ensures AllStandard(ToStandard(source))
    ensures DecodeFromChars(source, dest) ==
      Wrote(6 * |source| / 8, DecodeSpec(ToStandard(source)) + dest[6 * |source| / 8..])
    ensures |source| % 4 == 0 ==> DecodeFromChars(source, dest).count == 3 * (|source| / 4)
  {
    forall k | 0 <= k < |source|
      ensures IsStandardChar(ToStandard(source)[k])
    {
      ToStandardAccepted(source, k);
    }
    PreparedShape(source);
    var r := DecodeFromChars(source, dest);
    var n := 6 * |source| / 8;
    assert r.dest == r.dest[..n] + r.dest[n..];
  }

  /** A character outside the accepted set before any `=` makes the decoder
      throw, whatever the rest of the source. */
  lemma {:induction false} FromCharsRejects(source: string, dest: seq<byte>, k: nat)
    requires k < |source| && !IsAcceptedChar(source[k])
    requires forall i :: 0 <= i <= k ==> source[i] != '='
    requires 6 * |source| / 8 <= |dest|
    ensures DecodeFromChars(source, dest).Threw?
    ensures DecodeFromChars(source, dest).error == InvalidCharacter
  {
    var p := Prepared(source);
    var m := PadIndex(p);
    forall i | 0 <= i <= k
      ensures p[i] != '='
    {
      assert p[i] == ToStandard(source)[i];
      ToStandardAccepted(source, i);
    }
    assert m > k;
    if |source| < |p| {
      assert p[|source|] == '=';
    }
    assert p[k] == ToStandard(source)[k];
    ToStandardAccepted(source, k);
    assert p[..m][k] == p[k];
  }

  /** The decoder is not strict: standard `+` and `/` decode like the URL-safe
      `-` and `_` they stand for. */
  lemma {:induction false} StandardSpellingAccepted(dest: seq<byte>)
    ensures DecodeFromChars("+/+/", dest) == DecodeFromChars("-_-_", dest)
    ensures 3 <= |dest| ==> DecodeFromChars("+/+/", dest) == Wrote(3, DecodeSpec("+/+/") + dest[3..])
  {
    assert ToStandard("+/+/") == ToStandard("-_-_");
    assert ToStandard("+/+/") == "+/+/";
    if 3 <= |dest| {
      FromCharsDecodes("+/+/", dest);
    }
  }

  /** Nor does it reject padding: a source that already carries its `=`
      padding decodes as the same source without it. */
  lemma {:induction false} PaddingTolerated(source: string, dest: seq<byte>)
    requires '=' !in source
    ensures DecodeFromChars(Text.PadTo4(source, '='), dest) == DecodeFromChars(source, dest)
  {
    var padded := Text.PadTo4(source, '=');
    var t, u := ToStandard(padded), Text.PadTo4(ToStandard(source), '=');
    forall k | 0 <= k < |t|
      ensures t[k] == u[k]
    {
      ToStandardChar(padded, k);
      if k < |source| {
        assert padded[k] == source[k];
        ToStandardChar(source, k);
      }
    }
    assert t == u;
    var w := Text.PadTo4(t, '=');
    assert w[..|t|] == t && |w| == |t|;
  }

  /** Without `=` in a non-empty source, `out_len` as written is exact except
      when the length is 1 more than a multiple of 4, where it is one too many. */
  lemma {:induction false} OutLenExcess(source: string)
    requires '=' !in source && |source| > 0
    ensures |Prepared(source)| >= 2
    ensures OutLenAsWritten(Prepared(source)) ==
      DecodedLength(Prepared(source)) + (if |source| % 4 == 1 then 1 else 0)
  {
    var p := Prepared(source);
    PreparedShape(source);
    var n, l := |source|, |p|;
    var q := n / 4;
    if n % 4 == 0 {
      assert l == n;
      assert p[l - 1] == ToStandard(source)[l - 1];
      assert p[l - 2] == ToStandard(source)[l - 2];
      ToStandardAccepted(source, l - 1);
      ToStandardAccepted(source, l - 2);
    } else if n % 4 == 1 {
      assert l == 4 * q + 4;
      assert p[l - 1] == '=' && p[l - 2] == '=';
    } else if n % 4 == 2 {
      assert l == 4 * q + 4;
      assert p[l - 1] == '=' && p[l - 2] == '=';
    } else {
      assert l == 4 * q + 4;
      assert p[l - 1] == '=';
      assert p[l - 2] == ToStandard(source)[l - 2];
      ToStandardAccepted(source, l - 2);
    }
  }

  /** Where `out_len` is exact, the decoder as written and the corrected one agree. */
  lemma {:induction false} AsWrittenAgrees(source: string, dest: seq<byte>)
    requires '=' !in source && |source| > 0 && |source| % 4 != 1
    ensures DecodeFromCharsAsWritten(source, dest) == DecodeFromChars(source, dest)
  {
    OutLenExcess(source);
  }

  /** As written, a source of 4k+1 characters needs one destination byte more
      than the decoder writes: with exactly enough room it throws, where the
      corrected decoder succeeds. */
  lemma {:induction false} AsWrittenOverstatesOutLen(source: string, dest: seq<byte>)
    requires '=' !in source && |source| % 4 == 1
    requires forall k :: 0 <= k < |source| ==> IsAcceptedChar(source[k])
    requires |dest| == 6 * |source| / 8
    ensures DecodeFromCharsAsWritten(source, dest) == Threw(DestinationTooSmall, dest)
    ensures DecodeFromChars(source, dest).Wrote?
  {
    OutLenExcess(source);
    PreparedShape(source);
    FromCharsDecodes(source, dest);
  }

  /** The smallest instance: five characters decode to three bytes, but the
      decoder as written demands four. */
  lemma FiveCharacters()
    ensures DecodeFromCharsAsWritten("QUJDR", [0, 0, 0]) == Threw(DestinationTooSmall, [0, 0, 0])
    ensures DecodeFromChars("QUJDR", [0, 0, 0]).Wrote?
    ensures DecodeFromChars("QUJDR", [0, 0, 0]).count == 3
  {
    var s := "QUJDR";
    assert forall k :: 0 <= k < |s| ==> IsAcceptedChar(s[k]);
    AsWrittenOverstatesOutLen(s, [0, 0, 0]);
    FromCharsDecodes(s, [0, 0, 0]);
  }

  /** An empty source: as written the decoder reads before the string; the
      corrected one writes nothing. */
  lemma {:induction false} EmptySource(dest: seq<byte>)
    ensures DecodeFromCharsAsWritten("", dest) == Threw(ReadBeforeInput, dest)
    ensures DecodeFromChars("", dest) == Wrote(0, dest)
  {
    FromCharsDecodes("", dest);
  }
}
