/** `Cask_GenerateKey` of src/libcask/cask.cpp and its four argument checks.
    The random bytes, the clock and CRC32 are parameters: `fill(i)` is the
    i-th byte `FillRandom` would produce, `year` and `month` are what
    `gmtime` reports, and `crc32` is the four-byte digest `Crc32::Hash`
    writes. The key is returned as bytes; its length is the function's
    return value in the source. */
module Cask {
  import opened Results
  import opened Bits
  import opened Helpers
  import opened Decoder
  import RoundTrip

  // ---------------------------------------------------------------------------
  // Size constants (cask.cpp lines 22-37)
  // ---------------------------------------------------------------------------

  const MaxProviderDataLengthInBytes: int := RoundUpTo3ByteAlignment(24)
  const MaxProviderDataLengthInChars: int := BytesToBase64Chars(MaxProviderDataLengthInBytes)
  const MinSecretEntropyInBytes: int := RoundUpTo3ByteAlignment(16)
  const MaxSecretEntropyInBytes: int := RoundUpTo3ByteAlignment(64)

  lemma ConstantValues()
    ensures MaxProviderDataLengthInBytes == 24 && MaxProviderDataLengthInChars == 32
    ensures MinSecretEntropyInBytes == 18 && MaxSecretEntropyInBytes == 66
  {
    AlignmentOfConstants();
  }

  // ---------------------------------------------------------------------------
  // Errors and argument checks
  // ---------------------------------------------------------------------------

  /** Every way `Cask_GenerateKey` can fail: one `std::invalid_argument` per
      check, the failing `assert`s, and the exceptions of the decoder. */
  datatype GenerateError =
    | ProviderSignatureNull | ProviderSignatureLength | ProviderSignatureAlphabet
    | AllocatorCodeNull | AllocatorCodeLength | AllocatorCodeAlphabet
    | ProviderDataNull | ProviderDataTooLong | ProviderDataMisaligned | ProviderDataAlphabet
    | SecretEntropyOutOfRange
    | YearOutOfRange
    | KeyLengthAssertion
    | WriteCountAssertion
    | DecodeFailed(reason: DecodeError)
  {
    predicate IsSignatureError() {
      ProviderSignatureNull? || ProviderSignatureLength? || ProviderSignatureAlphabet?
    }

    predicate IsAllocatorError() {
      AllocatorCodeNull? || AllocatorCodeLength? || AllocatorCodeAlphabet?
    }

    predicate IsDataError() {
      ProviderDataNull? || ProviderDataTooLong? || ProviderDataMisaligned? || ProviderDataAlphabet?
    }
  }

  /** Every character is from the URL-safe alphabet. */
  predicate UrlSafe(s: string) {
    forall i :: 0 <= i < |s| ==> IsValidBase64UrlCharacter(s[i])
  }

  /** Well-formed arguments, stated over the string contents. */
  predicate SignatureOk(providerSignature: CString) {
    providerSignature.Chars? && |Contents(providerSignature)| == 4 && UrlSafe(Contents(providerSignature))
  }

  predicate AllocatorOk(allocatorCode: CString) {
    allocatorCode.Chars? && |Contents(allocatorCode)| == 2 && UrlSafe(Contents(allocatorCode))
  }

  predicate DataOk(providerData: CString) {
    providerData.Chars? && |Contents(providerData)| <= 32 && |Contents(providerData)| % 4 == 0
    && UrlSafe(Contents(providerData))
  }

  /** `IsValidForBase64Url` on a non-null string is the alphabet test of
      its contents. */
  lemma {:induction false} ValidForBase64Url(s: CString)
    requires s.Chars?
    ensures IsValidForBase64Url(s) <==> UrlSafe(Contents(s))
  {
    var c := Contents(s);
    forall i | 0 <= i < |c|
      ensures IsValidBase64UrlCharacter(c[i]) <==> c[i] in Base64UrlChars
    {
      ValidCharacterIsInAlphabet(c[i]);
    }
    if !UrlSafe(c) {
      var i :| 0 <= i < |c| && !IsValidBase64UrlCharacter(c[i]);
      assert c[i] in c;
    }
  }

  /** `ValidateProviderSignature`: not null, 4 characters, URL-safe. */
  function ValidateProviderSignature(providerSignature: CString): (r: Option<GenerateError>)
    ensures r == None <==> SignatureOk(providerSignature)
    ensures r.Some? ==> r.value.IsSignatureError()
    ensures r == Some(ProviderSignatureNull) <==> providerSignature.Null?
    ensures r == Some(ProviderSignatureLength) <==>
      providerSignature.Chars? && |Contents(providerSignature)| != 4
  {
    if providerSignature.Null? then Some(ProviderSignatureNull)
    else if Strlen(providerSignature) != 4 then Some(ProviderSignatureLength)
    else
      ValidForBase64Url(providerSignature);
      if !IsValidForBase64Url(providerSignature) then Some(ProviderSignatureAlphabet)
      else None
  }

  /** `ValidateAllocatorCode`: not null, 2 characters, URL-safe. */
  function ValidateAllocatorCode(allocatorCode: CString): (r: Option<GenerateError>)
    ensures r == None <==> AllocatorOk(allocatorCode)
    ensures r.Some? ==> r.value.IsAllocatorError()
    ensures r == Some(AllocatorCodeNull) <==> allocatorCode.Null?
    ensures r == Some(AllocatorCodeLength) <==> allocatorCode.Chars? && |Contents(allocatorCode)| != 2
  {
    if allocatorCode.Null? then Some(AllocatorCodeNull)
    else if Strlen(allocatorCode) != 2 then Some(AllocatorCodeLength)
    else
      ValidForBase64Url(allocatorCode);
      if !IsValidForBase64Url(allocatorCode) then Some(AllocatorCodeAlphabet)
      else None
  }

  /** `ValidateProviderData`: not null, at most 32 characters, a multiple of
      4 of them, URL-safe; the checks in that order. */
  function ValidateProviderData(providerData: CString): (r: Option<GenerateError>)
    ensures r == None <==> DataOk(providerData)
    ensures r.Some? ==> r.value.IsDataError()
    ensures r == Some(ProviderDataNull) <==> providerData.Null?
    ensures r == Some(ProviderDataTooLong) <==> providerData.Chars? && |Contents(providerData)| > 32
    ensures r == Some(ProviderDataMisaligned) <==>
      providerData.Chars? && |Contents(providerData)| <= 32 && |Contents(providerData)| % 4 != 0
  {
    ConstantValues();
    if providerData.Null? then Some(ProviderDataNull)
    else
      var length := Strlen(providerData);
      if length > MaxProviderDataLengthInChars then Some(ProviderDataTooLong)
      else if !Is4CharAligned(length) then Some(ProviderDataMisaligned)
      else
        ValidForBase64Url(providerData);
        if !IsValidForBase64Url(providerData) then Some(ProviderDataAlphabet)
        else None
  }

  /** `ValidateSecretEntropy`, applied to the already rounded byte count. */
  function ValidateSecretEntropy(secretEntropyInBytes: int): (r: Option<GenerateError>)
    ensures r == None <==> 18 <= secretEntropyInBytes <= 66
    ensures r.Some? ==> r.value == SecretEntropyOutOfRange
  {
    ConstantValues();
    if secretEntropyInBytes < MinSecretEntropyInBytes || secretEntropyInBytes > MaxSecretEntropyInBytes then
      Some(SecretEntropyOutOfRange)
    else
      None
  }

  /** Rounding first, then checking [18, 66], accepts exactly the requests
      for 16 to 66 bytes. */
  lemma {:induction false} EntropyAccepted(secretEntropyInBytes: int)
    requires IsInt32(secretEntropyInBytes) && secretEntropyInBytes <= Int32Max - 3
    ensures ValidateSecretEntropy(RoundUpTo3ByteAlignment(secretEntropyInBytes)) == None
        <==> 16 <= secretEntropyInBytes <= 66
  {
    var r := RoundUpTo3ByteAlignment(secretEntropyInBytes);
  }

  // ---------------------------------------------------------------------------
  // The plan of a key
  // ---------------------------------------------------------------------------

  /** What the checks hand on to the layout: the rounded entropy size, the
      byte count of the provider data, and the three strings. */
  datatype KeyPlan = KeyPlan(entropyBytes: nat, dataBytes: nat, providerData: string,
                             allocatorCode: string, providerSignature: string)

  /** An accepted plan; `dataBytes` is 3 bytes per 4 characters of data. */
  predicate ValidPlan(p: KeyPlan) {
    18 <= p.entropyBytes <= 66 && p.entropyBytes % 3 == 0
    && |p.providerData| <= 32 && 4 * p.dataBytes == 3 * |p.providerData| && UrlSafe(p.providerData)
    && |p.allocatorCode| == 2 && UrlSafe(p.allocatorCode)
    && |p.providerSignature| == 4 && UrlSafe(p.providerSignature)
  }

  /** Lines 79-84: round the entropy size, then check the provider
      signature, the allocator code, the provider data and the entropy, in
      that order; the first failing check decides the error. */
  function ValidateArguments(allocatorCode: CString, providerSignature: CString, providerData: CString,
                             secretEntropyInBytes: int): (r: Result<KeyPlan, GenerateError>)
    requires IsInt32(secretEntropyInBytes) && secretEntropyInBytes <= Int32Max - 3
    ensures r.Ok? <==> SignatureOk(providerSignature) && AllocatorOk(allocatorCode)
                       && DataOk(providerData) && 16 <= secretEntropyInBytes <= 66
    ensures r.Err? && r.error.IsSignatureError() <==> !SignatureOk(providerSignature)
    ensures r.Err? && r.error.IsAllocatorError() <==>
      SignatureOk(providerSignature) && !AllocatorOk(allocatorCode)
    ensures r.Err? && r.error.IsDataError() <==>
      SignatureOk(providerSignature) && AllocatorOk(allocatorCode) && !DataOk(providerData)
    ensures r == Err(SecretEntropyOutOfRange) <==>
      SignatureOk(providerSignature) && AllocatorOk(allocatorCode) && DataOk(providerData)
      && !(16 <= secretEntropyInBytes <= 66)
    ensures r.Ok? ==>
      ValidPlan(r.value)
      && r.value.entropyBytes == RoundUpTo3ByteAlignment(secretEntropyInBytes)
      && r.value.dataBytes == Base64CharsToBytes(|Contents(providerData)|)
      && r.value.providerData == Contents(providerData)
      && r.value.allocatorCode == Contents(allocatorCode)
      && r.value.providerSignature == Contents(providerSignature)
  {
    var entropy := RoundUpTo3ByteAlignment(secretEntropyInBytes);
    EntropyAccepted(secretEntropyInBytes);
    match ValidateProviderSignature(providerSignature)
    case Some(e) => Err(e)
    case None =>
      match ValidateAllocatorCode(allocatorCode)
      case Some(e) => Err(e)
      case None =>
        match ValidateProviderData(providerData)
        case Some(e) => Err(e)
        case None =>
          match ValidateSecretEntropy(entropy)
          case Some(e) => Err(e)
          case None =>
            var data := Contents(providerData);
            Ok(KeyPlan(entropy, Base64CharsToBytes(|data|), data, Contents(allocatorCode),
                       Contents(providerSignature)))
  }

  /** `GetKeyLengthInBytes`: entropy, provider data and 12 fixed bytes. */
  function KeyLength(p: KeyPlan): (r: nat)
    ensures ValidPlan(p) ==> 30 <= r <= 102 && r % 3 == 0
  {
    p.entropyBytes + p.dataBytes + 12
  }

  /** Every accepted plan gives a key of 30 to 102 bytes, a multiple of 3. */
  lemma {:induction false} KeyLengthRange(p: KeyPlan)
    requires ValidPlan(p)
    ensures 30 <= KeyLength(p) <= 102 && KeyLength(p) % 3 == 0
    ensures |p.providerData| % 4 == 0 && p.dataBytes <= 24
  {
  }

  // ---------------------------------------------------------------------------
  // Writing into the key
  // ---------------------------------------------------------------------------

  /** `part` copied into `key` at `offset`; nothing else changes. */
  function Overwrite(key: seq<byte>, offset: nat, part: seq<byte>): (r: seq<byte>)
    requires offset + |part| <= |key|
    ensures |r| == |key|
  {
    key[..offset] + part + key[offset + |part|..]
  }

  /** `part` lands at `offset`; the bytes before and after it are kept. */
  lemma {:induction false} OverwriteParts(key: seq<byte>, offset: nat, part: seq<byte>)
    requires offset + |part| <= |key|
    ensures var r := Overwrite(key, offset, part);
      r[..offset] == key[..offset] && r[offset..offset + |part|] == part
      && r[offset + |part|..] == key[offset + |part|..]
  {
  }

  /** The fresh `std::vector<uint8_t>` is zero-filled. */
  function ZeroBytes(n: nat): (r: seq<byte>)
    ensures |r| == n && forall i :: 0 <= i < n ==> r[i] == 0
  {
    seq(n, _ => 0 as byte)
  }

  /** The first n bytes of the random source. */
  function Entropy(fill: nat -> byte, n: nat): (r: seq<byte>)
    ensures |r| == n && forall i :: 0 <= i < n ==> r[i] == fill(i)
  {
    seq(n, i requires 0 <= i => fill(i))
  }

  /** The fixed CASK signature bytes of lines 101-103. */
  const CaskSignature: seq<byte> := [0x25, 0x04, 0x09]

  /** The four bytes `Crc32::Hash` writes into its `std::vector<uint8_t>(4)`. */
  datatype Crc32Digest = Crc32Digest(b0: byte, b1: byte, b2: byte, b3: byte)

  /** The checksum field: the first three digest bytes. */
  function ChecksumBytes(d: Crc32Digest): (r: seq<byte>)
    ensures |r| == 3
  {
    [d.b0, d.b1, d.b2]
  }

  /** `ComputeChecksum(keyBytes, destination)`: CRC32 over every byte but
      the last three, whose first three bytes become those last three. */
  function WithChecksum(key: seq<byte>, crc32: seq<byte> -> Crc32Digest): (r: seq<byte>)
    requires |key| >= 3
    ensures |r| == |key| && r[..|key| - 3] == key[..|key| - 3]
    ensures r[|key| - 3..] == ChecksumBytes(crc32(key[..|key| - 3]))
  {
    Overwrite(key, |key| - 3, ChecksumBytes(crc32(key[..|key| - 3])))
  }

  /** The allocator code followed by the year and month characters of
      lines 115-120, the table entries at the year offset and the month
      index. */
  function Timestamp(allocatorCode: string, year: int, month: int): (r: string)
    requires |allocatorCode| == 2 && 2024 <= year <= 2087 && 1 <= month <= 12
    ensures |r| == 4 && r[..2] == allocatorCode
    ensures r[2] == Base64UrlChars[year - 2024] && r[3] == Base64UrlChars[month - 1]
  {
    [allocatorCode[0], allocatorCode[1], UrlChar(year - 2024), UrlChar(month - 1)]
  }

  /** Which `DecodeBase64` the key is built on: the one in base64url.h, or
      the corrected one (no read before empty input, exact `out_len`).
      `AsWritten` also keeps the `keyLengthInBytes <= 64` assertion. */
  datatype Build = AsWritten | Corrected

  /** A `DecodeFromChars` of either build: the outcome keeps the
      destination's length. */
  type Base64Decoder = f: (string, seq<byte>) -> DecodeOutcome | forall s, d :: |f(s, d).dest| == |d|
    witness DecodeFromChars

  /** The decoder a build runs. */
  function DecoderOf(build: Build): Base64Decoder {
    match build
    case AsWritten => DecodeFromCharsAsWritten
    case Corrected => DecodeFromChars
  }

  /** `DecodeFromChars(source, destination)` on the span of `key` from
      `offset`, then `assert(bytesWritten == count)`. */
  function DecodeInto(decode: Base64Decoder, source: string, key: seq<byte>, offset: nat, count: nat)
    : (r: Result<seq<byte>, GenerateError>)
    requires offset <= |key|
    ensures r.Ok? ==> |r.value| == |key| && r.value[..offset] == key[..offset]
  {
    var o := decode(source, key[offset..]);
    if o.Threw? then Err(DecodeFailed(o.error))
    else if o.count != count then Err(WriteCountAssertion)
    else
      assert (key[..offset] + o.dest)[..offset] == key[..offset];
      Ok(key[..offset] + o.dest)
  }

  // ---------------------------------------------------------------------------
  // Cask_GenerateKey
  // ---------------------------------------------------------------------------

  /** What lines 97-130 do to the key buffer after the entropy. */
  datatype Step =
    | DecodeAt(source: string, offset: nat, count: nat)  // DecodeFromChars into the span at offset, count bytes asserted
    | CopyAt(offset: nat, bytes: seq<byte>)              // std::copy of fixed bytes
    | Throw(error: GenerateError)                         // a check that throws
    | WriteChecksum                                       // ComputeChecksum over the key

  /** The step stays inside a key of `length` bytes. */
  predicate Fits(step: Step, length: nat) {
    match step
    case DecodeAt(_, offset, _) => offset <= length
    case CopyAt(offset, bytes) => offset + |bytes| <= length
    case Throw(_) => true
    case WriteChecksum => 3 <= length
  }

  /** A run of steps, first to last. */
  datatype Steps = Done | Then(first: Step, rest: Steps)

  predicate AllFit(steps: Steps, length: nat) {
    match steps
    case Done => true
    case Then(step, rest) => Fits(step, length) && AllFit(rest, length)
  }

  /** The steps of lines 97-130 in source order. The year check of lines
      106-113 throws in place of the timestamp decode. */
  function KeySteps(p: KeyPlan, year: int, month: int): (r: Steps)
    requires |p.allocatorCode| == 2 && 1 <= month <= 12
    ensures AllFit(r, KeyLength(p))
  {
    var e, n := p.entropyBytes, p.dataBytes;
    var last := Then(DecodeAt(p.providerSignature, e + n + 6, 3), Then(WriteChecksum, Done));
    assert AllFit(last, KeyLength(p));
    Then(DecodeAt(p.providerData, e, n),
    Then(CopyAt(e + n, CaskSignature),
    Then(if year < 2024 || year > 2087 then Throw(YearOutOfRange)
         else DecodeAt(Timestamp(p.allocatorCode, year, month), e + n + 3, 3),
    last)))
  }

  /** The steps of lines 101-130: the signature, the timestamp, the
      provider signature and the checksum. */
  function SignatureSteps(o2: nat, stamp: string, o3: nat, sig: string, o4: nat): (r: Steps)
    ensures forall length: nat :: AllFit(r, length) <==> o2 + 3 <= length && o3 <= length && o4 <= length && 3 <= length
  {
    Then(CopyAt(o2, CaskSignature), BackSteps(stamp, o3, sig, o4))
  }

  /** The steps of lines 122-130. */
  function BackSteps(stamp: string, o3: nat, sig: string, o4: nat): (r: Steps)
    ensures forall length: nat :: AllFit(r, length) <==> o3 <= length && o4 <= length && 3 <= length
  {
    var checksum := Then(WriteChecksum, Done);
    assert forall length: nat :: AllFit(checksum, length) <==> 3 <= length;
    var last := Then(DecodeAt(sig, o4, 3), checksum);
    assert forall length: nat :: AllFit(last, length) <==> o4 <= length && 3 <= length;
    Then(DecodeAt(stamp, o3, 3), last)
  }

  /** The key `Cask_GenerateKey` starts from: the entropy over a zero-filled
      tail (lines 90-95). */
  function InitialKey(p: KeyPlan, fill: nat -> byte): (r: seq<byte>)
    requires ValidPlan(p)
    ensures |r| == KeyLength(p)
    ensures forall i :: 0 <= i < p.entropyBytes ==> r[i] == fill(i)
    ensures forall i :: p.entropyBytes <= i < |r| ==> r[i] == 0
  {
    Entropy(fill, p.entropyBytes) + ZeroBytes(KeyLength(p) - p.entropyBytes)
  }

  /** One step on the key buffer. */
  function Perform(decode: Base64Decoder, crc32: seq<byte> -> Crc32Digest, step: Step, key: seq<byte>)
    : (r: Result<seq<byte>, GenerateError>)
    requires Fits(step, |key|)
    ensures r.Ok? ==> |r.value| == |key|
  {
    match step
    case DecodeAt(source, offset, count) => DecodeInto(decode, source, key, offset, count)
    case CopyAt(offset, bytes) => Ok(Overwrite(key, offset, bytes))
    case Throw(error) => Err(error)
    case WriteChecksum => Ok(WithChecksum(key, crc32))
  }

  /** The steps in order; the first failure is the result. */
  function Run(decode: Base64Decoder, crc32: seq<byte> -> Crc32Digest, steps: Steps, key: seq<byte>)
    : (r: Result<seq<byte>, GenerateError>)
    requires AllFit(steps, |key|)
    ensures r.Ok? ==> |r.value| == |key|
    decreases steps, 1
  {
    match steps
    case Done => Ok(key)
    case Then(step, rest) => Continue(decode, crc32, step, key, rest)
  }

  /** `step`, then, if it succeeds, the `rest` on the key it leaves. */
  function Continue(decode: Base64Decoder, crc32: seq<byte> -> Crc32Digest, step: Step, key: seq<byte>, rest: Steps)
    : (r: Result<seq<byte>, GenerateError>)
    requires Fits(step, |key|) && AllFit(rest, |key|)
    ensures r.Ok? ==> |r.value| == |key|
    decreases rest, 2
  {
    match Perform(decode, crc32, step, key)
    case Err(err) => Err(err)
    case Ok(next) => Run(decode, crc32, rest, next)
  }

  /** Lines 90-130 for an accepted plan. */
  function LayOut(build: Build, p: KeyPlan, fill: nat -> byte, year: int, month: int,
                  crc32: seq<byte> -> Crc32Digest): (r: Result<seq<byte>, GenerateError>)
    requires ValidPlan(p) && 1 <= month <= 12
    ensures r.Ok? ==> |r.value| == KeyLength(p)
  {
    Run(DecoderOf(build), crc32, KeySteps(p, year, month), InitialKey(p, fill))
  }

  /** The whole function for either build: checks, the length assertion
      (as written only), then the layout. */
  function GenerateKeyWith(build: Build, allocatorCode: CString, providerSignature: CString,
                           providerData: CString, secretEntropyInBytes: int, fill: nat -> byte,
                           year: int, month: int, crc32: seq<byte> -> Crc32Digest)
    : (r: Result<seq<byte>, GenerateError>)
    requires IsInt32(secretEntropyInBytes) && secretEntropyInBytes <= Int32Max - 3
    requires 1 <= month <= 12
    ensures r.Ok? ==> ValidateArguments(allocatorCode, providerSignature, providerData, secretEntropyInBytes).Ok?
    ensures r.Ok? ==> 30 <= |r.value| <= 102 && |r.value| % 3 == 0
    ensures r.Ok? && build == AsWritten ==> |r.value| <= 64
  {
    match ValidateArguments(allocatorCode, providerSignature, providerData, secretEntropyInBytes)
    case Err(e) => Err(e)
    case Ok(p) =>
      KeyLengthRange(p);
      if build == AsWritten && KeyLength(p) > 64 then Err(KeyLengthAssertion)
      else LayOut(build, p, fill, year, month, crc32)
  }

  /** `Cask_GenerateKey` as written. */
  function GenerateKeyAsWritten(allocatorCode: CString, providerSignature: CString, providerData: CString,
                                secretEntropyInBytes: int, fill: nat -> byte, year: int, month: int,
                                crc32: seq<byte> -> Crc32Digest): (r: Result<seq<byte>, GenerateError>)
    requires IsInt32(secretEntropyInBytes) && secretEntropyInBytes <= Int32Max - 3
    requires 1 <= month <= 12
    ensures r.Ok? ==> 30 <= |r.value| <= 64
  {
    GenerateKeyWith(AsWritten, allocatorCode, providerSignature, providerData,
                    secretEntropyInBytes, fill, year, month, crc32)
  }

  /** `Cask_GenerateKey` on the corrected decoder and without the 64-byte
      assertion. */
  function GenerateKey(allocatorCode: CString, providerSignature: CString, providerData: CString,
                       secretEntropyInBytes: int, fill: nat -> byte, year: int, month: int,
                       crc32: seq<byte> -> Crc32Digest): (r: Result<seq<byte>, GenerateError>)
    requires IsInt32(secretEntropyInBytes) && secretEntropyInBytes <= Int32Max - 3
    requires 1 <= month <= 12
    ensures r.Ok? ==> 30 <= |r.value| <= 102 && |r.value| % 3 == 0
  {
    GenerateKeyWith(Corrected, allocatorCode, providerSignature, providerData,
                    secretEntropyInBytes, fill, year, month, crc32)
  }

  // ---------------------------------------------------------------------------
  // The key, field by field
  // ---------------------------------------------------------------------------

  /** The three timestamp bytes: the 24 bits of the allocator code's two
      characters, the year offset and the month index, 6 bits each. */
  function StampBytes(allocatorCode: string, year: int, month: int): (r: seq<byte>)
    requires |allocatorCode| == 2 && UrlSafe(allocatorCode) && 2024 <= year <= 2087 && 1 <= month <= 12
    ensures |r| == 3
  {
    var a, b := UrlIndex(allocatorCode[0]), UrlIndex(allocatorCode[1]);
    var c, d := year - 2024, month - 1;
    [(a * 4 + b / 16) as byte, ((b % 16) * 16 + c / 4) as byte, ((c % 4) * 64 + d) as byte]
  }

  /** 4k characters carry 3k bytes. */
  lemma {:induction false} DecodedBytes(source: string, count: nat)
    requires 4 * count == 3 * |source|
    ensures |DecodeSpec(ToStandard(source))| == count
  {
    DivModUnique(6 * |source|, 8, count, 0);
  }

  /** The bytes lines 97-128 place behind the entropy: the decoded provider
      data, the CASK signature, the timestamp and the decoded provider
      signature. */
  function Fields(p: KeyPlan, year: int, month: int): (r: seq<byte>)
    requires ValidPlan(p) && 2024 <= year <= 2087 && 1 <= month <= 12
    ensures |r| == p.dataBytes + 9
  {
    DecodedBytes(p.providerData, p.dataBytes);
    DecodeSpec(ToStandard(p.providerData)) + CaskSignature + StampBytes(p.allocatorCode, year, month)
    + DecodeSpec(ToStandard(p.providerSignature))
  }

  /** The bytes a generated key holds in front of its checksum. */
  function KeyBody(p: KeyPlan, fill: nat -> byte, year: int, month: int): (r: seq<byte>)
    requires ValidPlan(p) && 2024 <= year <= 2087 && 1 <= month <= 12
    ensures |r| == KeyLength(p) - 3
  {
    Entropy(fill, p.entropyBytes) + Fields(p, year, month)
  }

  /** A body followed by the first three bytes of its CRC32. */
  function Sealed(body: seq<byte>, crc32: seq<byte> -> Crc32Digest): (r: seq<byte>)
    ensures |r| == |body| + 3 && r[..|body|] == body
  {
    body + ChecksumBytes(crc32(body))
  }

  /** The reference key: the body, sealed with its checksum. */
  function ExpectedKey(p: KeyPlan, fill: nat -> byte, year: int, month: int,
                       crc32: seq<byte> -> Crc32Digest): (r: seq<byte>)
    requires ValidPlan(p) && 2024 <= year <= 2087 && 1 <= month <= 12
    ensures |r| == KeyLength(p)
  {
    Sealed(KeyBody(p, fill, year, month), crc32)
  }

  /** The reference key field by field, with E entropy bytes and P
      provider-data bytes: entropy in [0, E), the decoded provider data in
      [E, E+P), the signature 25 04 09, the three timestamp bytes, the
      decoded provider signature, and last the first three CRC32 bytes of
      everything before them. */
  lemma {:induction false} KeyLayout(p: KeyPlan, fill: nat -> byte, year: int, month: int,
                  crc32: seq<byte> -> Crc32Digest)
    requires ValidPlan(p) && 2024 <= year <= 2087 && 1 <= month <= 12
    ensures var k, e, n := ExpectedKey(p, fill, year, month, crc32), p.entropyBytes, p.dataBytes;
      && |k| == e + n + 12
      && k[..e] == Entropy(fill, e)
      && k[e..e + n] == DecodeSpec(ToStandard(p.providerData))
      && k[e + n..e + n + 3] == CaskSignature
      && k[e + n + 3..e + n + 6] == StampBytes(p.allocatorCode, year, month)
      && k[e + n + 6..e + n + 9] == DecodeSpec(ToStandard(p.providerSignature))
      && k[e + n + 9..] == ChecksumBytes(crc32(k[..e + n + 9]))
  {
    var e, n := p.entropyBytes, p.dataBytes;
    var k := ExpectedKey(p, fill, year, month, crc32);
    var body := KeyBody(p, fill, year, month);
    var d1, time, d4 := DecodeSpec(ToStandard(p.providerData)), StampBytes(p.allocatorCode, year, month),
                        DecodeSpec(ToStandard(p.providerSignature));
    DecodedBytes(p.providerData, n);
    DecodedBytes(p.providerSignature, 3);
    assert body == Entropy(fill, e) + d1 + CaskSignature + time + d4;
    assert k[..e + n + 9] == body;
    assert body[..e] == Entropy(fill, e);
    assert body[e..e + n] == d1;
    assert body[e + n..e + n + 3] == CaskSignature;
    assert body[e + n + 3..e + n + 6] == time;
    assert body[e + n + 6..e + n + 9] == d4;
  }

  /** A URL-safe string has no `=` and only characters the decoder takes. */
  lemma {:induction false} UrlSafeAccepted(s: string)
    requires UrlSafe(s)
    ensures '=' !in s
    ensures forall k :: 0 <= k < |s| ==> IsAcceptedChar(s[k])
  {
  }

  lemma {:induction false} UrlCharValid(v: nat)
    requires v < 64
    ensures IsValidBase64UrlCharacter(UrlChar(v))
  {
  }

  /** 4k characters carry 3k bytes. */
  lemma {:induction false} GroupsOfFour(m: nat)
    requires m % 4 == 0
    ensures 6 * m / 8 == 3 * (m / 4)
  {
    DivModUnique(6 * m, 8, 3 * (m / 4), 0);
  }

  /** The timestamp string is four alphabet characters: the allocator
      code's two, then the year offset's and the month index's. */
  lemma {:induction false} StampCharacters(allocatorCode: string, year: int, month: int)
    requires |allocatorCode| == 2 && UrlSafe(allocatorCode) && 2024 <= year <= 2087 && 1 <= month <= 12
    ensures UrlSafe(Timestamp(allocatorCode, year, month))
    ensures Timestamp(allocatorCode, year, month) ==
      [UrlChar(UrlIndex(allocatorCode[0])), UrlChar(UrlIndex(allocatorCode[1])), UrlChar(year - 2024), UrlChar(month - 1)]
  {
    UrlCharValid(year - 2024);
    UrlCharValid(month - 1);
  }

  lemma {:induction false} StampUrlSafe(allocatorCode: string, year: int, month: int)
    requires |allocatorCode| == 2 && UrlSafe(allocatorCode) && 2024 <= year <= 2087 && 1 <= month <= 12
    ensures UrlSafe(Timestamp(allocatorCode, year, month))
  {
    StampCharacters(allocatorCode, year, month);
  }

  /** What the decoder writes for a URL-safe string is its decoded value. */
  lemma {:induction false} DecodedValue(source: string, dest: seq<byte>, bytes: seq<byte>)
    requires UrlSafe(source) && 6 * |source| / 8 <= |dest| && |bytes| <= |dest|
    requires DecodeFromChars(source, dest) == Wrote(|bytes|, bytes + dest[|bytes|..])
    ensures DecodeSpec(ToStandard(source)) == bytes
  {
    UrlSafeAccepted(source);
    FromCharsDecodes(source, dest);
    assert (bytes + dest[|bytes|..])[..|bytes|] == bytes;
    assert (DecodeSpec(ToStandard(source)) + dest[|bytes|..])[..|bytes|] == DecodeSpec(ToStandard(source));
  }

  /** The decoder writes the closed-form timestamp bytes for the
      timestamp string. */
  lemma {:induction false} StampGroup(allocatorCode: string, year: int, month: int)
    requires |allocatorCode| == 2 && UrlSafe(allocatorCode) && 2024 <= year <= 2087 && 1 <= month <= 12
    ensures DecodeFromChars(Timestamp(allocatorCode, year, month), ZeroBytes(3))
         == Wrote(3, StampBytes(allocatorCode, year, month) + ZeroBytes(3)[3..])
  {
    var a, b := UrlIndex(allocatorCode[0]), UrlIndex(allocatorCode[1]);
    StampCharacters(allocatorCode, year, month);
    var c, d := year - 2024, month - 1;
    assert StampBytes(allocatorCode, year, month)
        == [(a * 4 + b / 16) as byte, ((b % 16) * 16 + c / 4) as byte, ((c % 4) * 64 + d) as byte];
    RoundTrip.DecodeGroup(a, b, c, d, Timestamp(allocatorCode, year, month), ZeroBytes(3));
  }

  /** The timestamp string decodes to the closed-form timestamp bytes. */
  lemma {:induction false} StampDecodes(allocatorCode: string, year: int, month: int)
    requires |allocatorCode| == 2 && UrlSafe(allocatorCode) && 2024 <= year <= 2087 && 1 <= month <= 12
    ensures UrlSafe(Timestamp(allocatorCode, year, month))
    ensures DecodeSpec(ToStandard(Timestamp(allocatorCode, year, month))) == StampBytes(allocatorCode, year, month)
  {
    StampCharacters(allocatorCode, year, month);
    StampGroup(allocatorCode, year, month);
    DecodedValue(Timestamp(allocatorCode, year, month), ZeroBytes(3), StampBytes(allocatorCode, year, month));
  }

  // ---------------------------------------------------------------------------
  // The layout, step by step
  // ---------------------------------------------------------------------------

  /** The decoder writes, for a URL-safe string of 4k characters, its 3k
      decoded bytes at the front of the destination and reports 3k bytes
      written; for the empty string only when `empty` holds. */
  ghost predicate DecodesUrlSafe(decode: Base64Decoder, empty: bool) {
    forall s, d {:trigger decode(s, d)} :: UrlSafe(s) && |s| % 4 == 0 && (empty || |s| > 0) && 3 * (|s| / 4) <= |d| ==>
      decode(s, d) == Wrote(3 * (|s| / 4), DecodeSpec(ToStandard(s)) + d[3 * (|s| / 4)..])
  }

  /** Both builds decode URL-safe strings of 4k characters to their value;
      the corrected one also the empty string, which the one as written
      reads before. */
  lemma {:induction false} DecoderOfDecodes(build: Build)
    ensures DecodesUrlSafe(DecoderOf(build), build == Corrected)
  {
    forall s, d | UrlSafe(s) && |s| % 4 == 0 && (build == Corrected || |s| > 0) && 3 * (|s| / 4) <= |d|
      ensures DecoderOf(build)(s, d) == Wrote(3 * (|s| / 4), DecodeSpec(ToStandard(s)) + d[3 * (|s| / 4)..])
    {
      UrlSafeAccepted(s);
      GroupsOfFour(|s|);
      FromCharsDecodes(s, d);
      if build == AsWritten {
        AsWrittenAgrees(s, d);
      }
    }
  }

  /** Such a decoder writes a URL-safe string of 4k characters into its span
      of the key: the 3k decoded bytes replace the span, nothing else
      changes, and the write count assertion holds. */
  lemma {:induction false} DecodeIntoUrlSafe(decode: Base64Decoder, empty: bool, source: string, key: seq<byte>, offset: nat, count: nat)
    requires DecodesUrlSafe(decode, empty)
    requires UrlSafe(source) && 4 * count == 3 * |source| && offset + count <= |key|
    requires empty || |source| > 0
    ensures |DecodeSpec(ToStandard(source))| == count
    ensures DecodeInto(decode, source, key, offset, count) == Ok(Overwrite(key, offset, DecodeSpec(ToStandard(source))))
  {
    assert |source| % 4 == 0 && count == 3 * (|source| / 4) by {
      DivModUnique(|source|, 4, |source| - count, 0);
    }
    DecodedBytes(source, count);
    var bytes, rest := DecodeSpec(ToStandard(source)), key[offset + count..];
    assert key[offset..][count..] == rest;
    assert decode(source, key[offset..]) == Wrote(count, bytes + rest);
    assert key[..offset] + (bytes + rest) == key[..offset] + bytes + rest;
  }

  /** A step that succeeds hands its key to the steps after it. */
  lemma {:induction false} RunStep(decode: Base64Decoder, crc32: seq<byte> -> Crc32Digest, step: Step, rest: Steps,
                key: seq<byte>, next: seq<byte>)
    requires Fits(step, |key|) && AllFit(rest, |key|)
    requires Perform(decode, crc32, step, key) == Ok(next)
    ensures |next| == |key|
    ensures Run(decode, crc32, Then(step, rest), key) == Run(decode, crc32, rest, next)
  {
  }

  /** A step that fails ends the run with its error. */
  lemma {:induction false} RunStepFails(decode: Base64Decoder, crc32: seq<byte> -> Crc32Digest, step: Step, rest: Steps,
                     key: seq<byte>, err: GenerateError)
    requires Fits(step, |key|) && AllFit(rest, |key|)
    requires Perform(decode, crc32, step, key) == Err(err)
    ensures Run(decode, crc32, Then(step, rest), key) == Err(err)
  {
  }

  /** A URL-safe string of 4k characters is decoded into its span: the
      decoded 3k bytes replace the span and nothing else changes. */
  lemma {:induction false} RunDecode(decode: Base64Decoder, empty: bool, crc32: seq<byte> -> Crc32Digest, source: string,
                  offset: nat, count: nat, rest: Steps, key: seq<byte>)
    requires DecodesUrlSafe(decode, empty) && (empty || |source| > 0)
    requires UrlSafe(source) && 4 * count == 3 * |source| && offset + count <= |key|
    requires AllFit(rest, |key|)
    ensures |DecodeSpec(ToStandard(source))| == count
    ensures Run(decode, crc32, Then(DecodeAt(source, offset, count), rest), key)
         == Run(decode, crc32, rest, Overwrite(key, offset, DecodeSpec(ToStandard(source))))
  {
    DecodeIntoUrlSafe(decode, empty, source, key, offset, count);
    RunStep(decode, crc32, DecodeAt(source, offset, count), rest, key,
            Overwrite(key, offset, DecodeSpec(ToStandard(source))));
  }

  /** As written, decoding an empty string reads before it and throws. */
  lemma {:induction false} RunEmptyDecode(crc32: seq<byte> -> Crc32Digest, offset: nat, count: nat, rest: Steps, key: seq<byte>)
    requires offset <= |key| && AllFit(rest, |key|)
    ensures Run(DecoderOf(AsWritten), crc32, Then(DecodeAt("", offset, count), rest), key)
         == Err(DecodeFailed(ReadBeforeInput))
  {
    EmptySource(key[offset..]);
    RunStepFails(DecoderOf(AsWritten), crc32, DecodeAt("", offset, count), rest, key, DecodeFailed(ReadBeforeInput));
  }

  /** Fixed bytes replace their span. */
  lemma {:induction false} RunCopy(decode: Base64Decoder, crc32: seq<byte> -> Crc32Digest, offset: nat, bytes: seq<byte>,
                rest: Steps, key: seq<byte>)
    requires offset + |bytes| <= |key| && AllFit(rest, |key|)
    ensures Run(decode, crc32, Then(CopyAt(offset, bytes), rest), key)
         == Run(decode, crc32, rest, Overwrite(key, offset, bytes))
  {
    RunStep(decode, crc32, CopyAt(offset, bytes), rest, key, Overwrite(key, offset, bytes));
  }

  /** A throwing check ends the run, whatever follows. */
  lemma {:induction false} RunThrow(decode: Base64Decoder, crc32: seq<byte> -> Crc32Digest, err: GenerateError, rest: Steps, key: seq<byte>)
    requires AllFit(rest, |key|)
    ensures Run(decode, crc32, Then(Throw(err), rest), key) == Err(err)
  {
    RunStepFails(decode, crc32, Throw(err), rest, key, err);
  }

  /** The checksum closes the key. */
  lemma {:induction false} RunChecksum(decode: Base64Decoder, crc32: seq<byte> -> Crc32Digest, key: seq<byte>)
    requires 3 <= |key|
    ensures Run(decode, crc32, Then(WriteChecksum, Done), key) == Ok(WithChecksum(key, crc32))
  {
    RunStep(decode, crc32, WriteChecksum, Done, key, WithChecksum(key, crc32));
  }

  /** Overwriting right behind a known prefix extends it. */
  lemma {:induction false} OverwriteExtends(key: seq<byte>, offset: nat, part: seq<byte>, prefix: seq<byte>)
    requires offset + |part| <= |key| && key[..offset] == prefix
    ensures Overwrite(key, offset, part)[..offset + |part|] == prefix + part
  {
    var r := Overwrite(key, offset, part);
    assert r[..offset + |part|] == r[..offset] + r[offset..offset + |part|];
  }

  /** `ComputeChecksum` on a key of a body and three more bytes seals the body. */
  lemma {:induction false} ChecksumSeals(key: seq<byte>, body: seq<byte>, crc32: seq<byte> -> Crc32Digest)
    requires |key| == |body| + 3 && key[..|body|] == body
    ensures WithChecksum(key, crc32) == Sealed(body, crc32)
  {
    var r := WithChecksum(key, crc32);
    assert r == r[..|body|] + r[|body|..];
  }

  /** The four writes of lines 97-128 behind the first `e` bytes of a key. */
  function Written(key: seq<byte>, e: nat, d1: seq<byte>, d3: seq<byte>, d4: seq<byte>): (r: seq<byte>)
    requires |key| == e + |d1| + 12 && |d3| == 3 && |d4| == 3
    ensures |r| == |key| && r[..e + |d1| + 9] == key[..e] + d1 + CaskSignature + d3 + d4
  {
    var n := |d1|;
    var k1 := Overwrite(key, e, d1);
    var k2 := Overwrite(k1, e + n, CaskSignature);
    var k3 := Overwrite(k2, e + n + 3, d3);
    OverwriteExtends(key, e, d1, key[..e]);
    OverwriteExtends(k1, e + n, CaskSignature, key[..e] + d1);
    OverwriteExtends(k2, e + n + 3, d3, key[..e] + d1 + CaskSignature);
    OverwriteExtends(k3, e + n + 6, d4, key[..e] + d1 + CaskSignature + d3);
    Overwrite(k3, e + n + 6, d4)
  }

  /** Lines 101-130: the signature bytes are copied into their span, then
      the timestamp and the provider signature are decoded and the checksum
      written. */
  lemma {:induction false} RunSignature(decode: Base64Decoder, empty: bool, crc32: seq<byte> -> Crc32Digest, o2: nat,
                     stamp: string, o3: nat, sig: string, o4: nat, key: seq<byte>)
    requires DecodesUrlSafe(decode, empty)
    requires UrlSafe(stamp) && |stamp| == 4 && UrlSafe(sig) && |sig| == 4
    requires o2 + 3 <= |key| && o3 + 3 <= |key| && o4 + 3 <= |key|
    ensures Run(decode, crc32, SignatureSteps(o2, stamp, o3, sig, o4), key)
         == Ok(WithChecksum(Overwrite(Overwrite(Overwrite(key, o2, CaskSignature), o3, DecodeSpec(ToStandard(stamp))), o4,
                                      DecodeSpec(ToStandard(sig))), crc32))
  {
    RunCopy(decode, crc32, o2, CaskSignature, BackSteps(stamp, o3, sig, o4), key);
    RunBack(decode, empty, crc32, stamp, o3, sig, o4, Overwrite(key, o2, CaskSignature));
  }

  /** Lines 122-130: the timestamp, the provider signature, the checksum. */
  lemma {:induction false} RunBack(decode: Base64Decoder, empty: bool, crc32: seq<byte> -> Crc32Digest, stamp: string, o3: nat,
                sig: string, o4: nat, key: seq<byte>)
    requires DecodesUrlSafe(decode, empty)
    requires UrlSafe(stamp) && |stamp| == 4 && UrlSafe(sig) && |sig| == 4
    requires o3 + 3 <= |key| && o4 + 3 <= |key| && 3 <= |key|
    ensures Run(decode, crc32, BackSteps(stamp, o3, sig, o4), key)
         == Ok(WithChecksum(Overwrite(Overwrite(key, o3, DecodeSpec(ToStandard(stamp))), o4,
                                      DecodeSpec(ToStandard(sig))), crc32))
  {
    RunDecode(decode, empty, crc32, stamp, o3, 3, Then(DecodeAt(sig, o4, 3), Then(WriteChecksum, Done)), key);
    var k3 := Overwrite(key, o3, DecodeSpec(ToStandard(stamp)));
    RunDecode(decode, empty, crc32, sig, o4, 3, Then(WriteChecksum, Done), k3);
    RunChecksum(decode, crc32, Overwrite(k3, o4, DecodeSpec(ToStandard(sig))));
  }

  /** The five steps on strings of the accepted shapes make the four
      writes, then the checksum. */
  lemma {:induction false} RunFields(decode: Base64Decoder, empty: bool, crc32: seq<byte> -> Crc32Digest, data: string, e: nat, n: nat,
                  stamp: string, sig: string, key: seq<byte>)
    requires DecodesUrlSafe(decode, empty) && (empty || |data| > 0)
    requires UrlSafe(data) && 4 * n == 3 * |data| && UrlSafe(stamp) && |stamp| == 4
    requires UrlSafe(sig) && |sig| == 4 && |key| == e + n + 12
    ensures |DecodeSpec(ToStandard(data))| == n
    ensures Run(decode, crc32, Then(DecodeAt(data, e, n), SignatureSteps(e + n, stamp, e + n + 3, sig, e + n + 6)), key)
         == Ok(WithChecksum(Written(key, e, DecodeSpec(ToStandard(data)), DecodeSpec(ToStandard(stamp)),
                                    DecodeSpec(ToStandard(sig))), crc32))
  {
    RunDecode(decode, empty, crc32, data, e, n, SignatureSteps(e + n, stamp, e + n + 3, sig, e + n + 6), key);
    RunSignature(decode, empty, crc32, e + n, stamp, e + n + 3, sig, e + n + 6,
                 Overwrite(key, e, DecodeSpec(ToStandard(data))));
  }

  /** In a supported year the timestamp string is decoded in place of the throw. */
  lemma {:induction false} KeyStepsSupported(p: KeyPlan, year: int, month: int)
    requires |p.allocatorCode| == 2 && 2024 <= year <= 2087 && 1 <= month <= 12
    ensures var e, n := p.entropyBytes, p.dataBytes;
      KeySteps(p, year, month)
      == Then(DecodeAt(p.providerData, e, n),
              SignatureSteps(e + n, Timestamp(p.allocatorCode, year, month), e + n + 3, p.providerSignature, e + n + 6))
  {
  }

  /** Sealing the written key gives the entropy bytes, the fields and
      their checksum. */
  lemma {:induction false} WrittenSealed(p: KeyPlan, year: int, month: int, crc32: seq<byte> -> Crc32Digest, key: seq<byte>)
    requires ValidPlan(p) && 2024 <= year <= 2087 && 1 <= month <= 12 && |key| == KeyLength(p)
    ensures |DecodeSpec(ToStandard(p.providerData))| == p.dataBytes
    ensures WithChecksum(Written(key, p.entropyBytes, DecodeSpec(ToStandard(p.providerData)),
                                 DecodeSpec(ToStandard(Timestamp(p.allocatorCode, year, month))),
                                 DecodeSpec(ToStandard(p.providerSignature))), crc32)
         == Sealed(key[..p.entropyBytes] + Fields(p, year, month), crc32)
  {
    var e := p.entropyBytes;
    var d1, d4 := DecodeSpec(ToStandard(p.providerData)), DecodeSpec(ToStandard(p.providerSignature));
    var time := StampBytes(p.allocatorCode, year, month);
    StampDecodes(p.allocatorCode, year, month);
    DecodedBytes(p.providerData, p.dataBytes);
    assert key[..e] + d1 + CaskSignature + time + d4 == key[..e] + Fields(p, year, month);
    ChecksumSeals(Written(key, e, d1, time, d4), key[..e] + Fields(p, year, month), crc32);
  }

  /** In a supported year the steps of lines 97-130 make the four writes
      behind the entropy bytes, then the checksum, whatever the buffer held
      before. */
  lemma {:induction false} RunKeySteps(decode: Base64Decoder, empty: bool, p: KeyPlan, year: int, month: int,
                    crc32: seq<byte> -> Crc32Digest, key: seq<byte>)
    requires DecodesUrlSafe(decode, empty) && (empty || |p.providerData| > 0)
    requires ValidPlan(p) && 2024 <= year <= 2087 && 1 <= month <= 12 && |key| == KeyLength(p)
    ensures |DecodeSpec(ToStandard(p.providerData))| == p.dataBytes
    ensures Run(decode, crc32, KeySteps(p, year, month), key)
         == Ok(WithChecksum(Written(key, p.entropyBytes, DecodeSpec(ToStandard(p.providerData)),
                                    DecodeSpec(ToStandard(Timestamp(p.allocatorCode, year, month))),
                                    DecodeSpec(ToStandard(p.providerSignature))), crc32))
  {
    StampUrlSafe(p.allocatorCode, year, month);
    KeyStepsSupported(p, year, month);
    RunFields(decode, empty, crc32, p.providerData, p.entropyBytes, p.dataBytes,
              Timestamp(p.allocatorCode, year, month), p.providerSignature, key);
  }

  /** Lines 90-130 in a supported year build the reference key, provided
      that, as written, the provider data is not empty. */
  lemma {:induction false} LayOutCorrect(build: Build, p: KeyPlan, fill: nat -> byte, year: int, month: int,
                      crc32: seq<byte> -> Crc32Digest)
    requires ValidPlan(p) && 2024 <= year <= 2087 && 1 <= month <= 12
    requires build == AsWritten ==> |p.providerData| > 0
    ensures LayOut(build, p, fill, year, month, crc32) == Ok(ExpectedKey(p, fill, year, month, crc32))
  {
    var key := InitialKey(p, fill);
    DecoderOfDecodes(build);
    RunKeySteps(DecoderOf(build), build == Corrected, p, year, month, crc32, key);
    WrittenSealed(p, year, month, crc32, key);
    assert key[..p.entropyBytes] == Entropy(fill, p.entropyBytes);
  }

  /** Outside 2024-2087 the layout throws at the year check, once the
      provider data has been decoded. */
  lemma {:induction false} LayOutYear(build: Build, p: KeyPlan, fill: nat -> byte, year: int, month: int,
                   crc32: seq<byte> -> Crc32Digest)
    requires ValidPlan(p) && !(2024 <= year <= 2087) && 1 <= month <= 12
    requires build == AsWritten ==> |p.providerData| > 0
    ensures LayOut(build, p, fill, year, month, crc32) == Err(YearOutOfRange)
  {
    var e, n := p.entropyBytes, p.dataBytes;
    var key := InitialKey(p, fill);
    var steps := KeySteps(p, year, month);
    var data := DecodeSpec(ToStandard(p.providerData));
    DecodedBytes(p.providerData, n);
    var k1 := Overwrite(key, e, data);
    DecoderOfDecodes(build);
    RunDecode(DecoderOf(build), build == Corrected, crc32, p.providerData, e, n, steps.rest, key);
    RunCopy(DecoderOf(build), crc32, e + n, CaskSignature, steps.rest.rest, k1);
    RunThrow(DecoderOf(build), crc32, YearOutOfRange, steps.rest.rest.rest, Overwrite(k1, e + n, CaskSignature));
  }

  /** As written, empty provider data throws before anything else is
      written: the decoder reads the character before it. */
  lemma {:induction false} LayOutEmptyData(p: KeyPlan, fill: nat -> byte, year: int, month: int, crc32: seq<byte> -> Crc32Digest)
    requires ValidPlan(p) && 1 <= month <= 12 && |p.providerData| == 0
    ensures LayOut(AsWritten, p, fill, year, month, crc32) == Err(DecodeFailed(ReadBeforeInput))
  {
    var steps := KeySteps(p, year, month);
    assert p.providerData == "";
    RunEmptyDecode(crc32, p.entropyBytes, p.dataBytes, steps.rest, InitialKey(p, fill));
  }

  // ---------------------------------------------------------------------------
  // Cask_GenerateKey, end to end
  // ---------------------------------------------------------------------------

  /** What an accepted plan ends in: the 64-byte assertion (as written), the
      read before empty provider data (as written), the year check, or the
      reference key. */
  function PlanOutcome(build: Build, p: KeyPlan, fill: nat -> byte, year: int, month: int,
                       crc32: seq<byte> -> Crc32Digest): Result<seq<byte>, GenerateError>
    requires ValidPlan(p) && 1 <= month <= 12
  {
    if build == AsWritten && KeyLength(p) > 64 then Err(KeyLengthAssertion)
    else if build == AsWritten && |p.providerData| == 0 then Err(DecodeFailed(ReadBeforeInput))
    else if year < 2024 || year > 2087 then Err(YearOutOfRange)
    else Ok(ExpectedKey(p, fill, year, month, crc32))
  }

  /** Every outcome of `Cask_GenerateKey`: the first failing argument check,
      otherwise the outcome of the accepted plan. */
  lemma {:induction false} GenerateKeyOutcome(build: Build, allocatorCode: CString, providerSignature: CString,
                           providerData: CString, secretEntropyInBytes: int, fill: nat -> byte,
                           year: int, month: int, crc32: seq<byte> -> Crc32Digest)
    requires IsInt32(secretEntropyInBytes) && secretEntropyInBytes <= Int32Max - 3
    requires 1 <= month <= 12
    ensures var v := ValidateArguments(allocatorCode, providerSignature, providerData, secretEntropyInBytes);
      GenerateKeyWith(build, allocatorCode, providerSignature, providerData, secretEntropyInBytes, fill, year, month, crc32)
      == if v.Err? then Err(v.error) else PlanOutcome(build, v.value, fill, year, month, crc32)
  {
    var v := ValidateArguments(allocatorCode, providerSignature, providerData, secretEntropyInBytes);
    if v.Ok? {
      var p := v.value;
      if build == AsWritten && KeyLength(p) > 64 {
      } else if build == AsWritten && |p.providerData| == 0 {
        LayOutEmptyData(p, fill, year, month, crc32);
      } else if year < 2024 || year > 2087 {
        LayOutYear(build, p, fill, year, month, crc32);
      } else {
        LayOutCorrect(build, p, fill, year, month, crc32);
      }
    }
  }

  /** The corrected function succeeds exactly when the four checks pass and
      the year is supported, and then returns the reference key. */
  lemma {:induction false} GenerateKeySucceeds(allocatorCode: CString, providerSignature: CString, providerData: CString,
                            secretEntropyInBytes: int, fill: nat -> byte, year: int, month: int,
                            crc32: seq<byte> -> Crc32Digest)
    requires IsInt32(secretEntropyInBytes) && secretEntropyInBytes <= Int32Max - 3
    requires 1 <= month <= 12
    ensures var r := GenerateKey(allocatorCode, providerSignature, providerData, secretEntropyInBytes, fill, year, month, crc32);
      var v := ValidateArguments(allocatorCode, providerSignature, providerData, secretEntropyInBytes);
      (r.Ok? <==> v.Ok? && 2024 <= year <= 2087)
      && (r.Ok? ==> r.value == ExpectedKey(v.value, fill, year, month, crc32))
  {
    GenerateKeyOutcome(Corrected, allocatorCode, providerSignature, providerData, secretEntropyInBytes,
                       fill, year, month, crc32);
  }

  /** The function as written and the corrected one agree, except where the
      one as written fails its length assertion or reads before empty
      provider data. */
  lemma {:induction false} AsWrittenAgreesWithCorrected(allocatorCode: CString, providerSignature: CString,
                                     providerData: CString, secretEntropyInBytes: int, fill: nat -> byte,
                                     year: int, month: int, crc32: seq<byte> -> Crc32Digest)
    requires IsInt32(secretEntropyInBytes) && secretEntropyInBytes <= Int32Max - 3
    requires 1 <= month <= 12
    ensures var w := GenerateKeyAsWritten(allocatorCode, providerSignature, providerData, secretEntropyInBytes,
                                          fill, year, month, crc32);
      w != GenerateKey(allocatorCode, providerSignature, providerData, secretEntropyInBytes, fill, year, month, crc32)
      ==> w == Err(KeyLengthAssertion) || w == Err(DecodeFailed(ReadBeforeInput))
  {
    GenerateKeyOutcome(AsWritten, allocatorCode, providerSignature, providerData, secretEntropyInBytes,
                       fill, year, month, crc32);
    GenerateKeyOutcome(Corrected, allocatorCode, providerSignature, providerData, secretEntropyInBytes,
                       fill, year, month, crc32);
  }

  /** The largest key the checks allow: 66 bytes of entropy and 32
      characters of provider data make 102 bytes. The corrected function
      returns it; the one as written stops at `keyLengthInBytes <= 64`. */
  lemma LongestKey(fill: nat -> byte, crc32: seq<byte> -> Crc32Digest)
    ensures var code, sig, data := Chars("AA"), Chars("ABCD"), Chars(seq(32, _ => 'A'));
      && GenerateKey(code, sig, data, 66, fill, 2025, 1, crc32).Ok?
      && |GenerateKey(code, sig, data, 66, fill, 2025, 1, crc32).value| == 102
      && GenerateKeyAsWritten(code, sig, data, 66, fill, 2025, 1, crc32) == Err(KeyLengthAssertion)
  {
    var code, sig, data := Chars("AA"), Chars("ABCD"), Chars(seq(32, _ => 'A'));
    ContentsWithoutNul("AA");
    ContentsWithoutNul("ABCD");
    ContentsWithoutNul(seq(32, _ => 'A'));
    AlignmentOfConstants();
    GenerateKeySucceeds(code, sig, data, 66, fill, 2025, 1, crc32);
  }
}
