/** The legacy TOTP engine (html/src/Totp/AbstractTotp.php): SHA-1, 6 digits and
    30-second slices, fixed as constants. It does not validate the secret beyond what
    its Base32 decoder refuses, and it packs the slice as a 32-bit counter padded to
    8 bytes.

    The class has no fields, so its operations are functions and, for the loop of
    `verifyCode`, a method. HMAC, the clock and the random bytes are parameters. */
module LegacyTotp {
  import opened Bits
  import opened Results
  import opened PhpStrings
  import opened TotpCore
  import Base32Spec
  import LegacyBase32

  /** `TIME_SLICE_DURATION`, `CODE_LENGTH` and `HASH_ALGORITHM`. */
  const TimeSliceDuration: nat := 30
  const CodeLength: nat := 6
  const HashAlgorithm: Algorithm := Sha1

  const TwoTo32: nat := 0x1_0000_0000
  /** The range of a PHP int (64-bit builds). */
  const PhpIntMin: int := -0x8000_0000_0000_0000
  const PhpIntMax: int := 0x7FFF_FFFF_FFFF_FFFF

  /** `getCurrentTimeSlice` at Unix time `unixTime`: whole 30-second periods elapsed. */
  function CurrentTimeSlice(unixTime: int): (slice: int)
    ensures TimeSliceDuration * slice <= unixTime < TimeSliceDuration * slice + TimeSliceDuration
  {
    unixTime / TimeSliceDuration
  }

  // ---------------------------------------------------------------------------
  // Counter

  /** `str_pad(pack('N', $slice), 8, "\0", STR_PAD_LEFT)`: four zero bytes, then the
      low 32 bits of the slice, big-endian. */
  function PackTimeSlice32(slice: int): (r: seq<byte>)
    ensures |r| == 8 && r[..4] == [0, 0, 0, 0]
    ensures BigEndianValue(r) == slice % TwoTo32
  {
    var low := ToBytes(slice % TwoTo32, 4);
    assert Pow256(4) == TwoTo32;
    BigEndianValueOfToBytes(slice % TwoTo32, 4);
    LeadingZeros(low);
    [0, 0, 0, 0] + low
  }

  /** Leading zero bytes add nothing to a big-endian value. */
  lemma {:induction false} LeadingZeros(low: seq<byte>)
    ensures BigEndianValue([0, 0, 0, 0] + low) == BigEndianValue(low)
  {
    var zeros: seq<byte> := [0, 0, 0, 0];
    if low == [] {
      var z1: seq<byte>, z2: seq<byte>, z3: seq<byte> := [0], [0, 0], [0, 0, 0];
      assert z1[..0] == [] && BigEndianValue(z1) == 0;
      assert z2[..1] == z1 && BigEndianValue(z2) == 0;
      assert z3[..2] == z2 && BigEndianValue(z3) == 0;
      assert zeros[..3] == z3 && zeros + low == zeros;
    } else {
      var n := |low|;
      assert (zeros + low)[..4 + n - 1] == zeros + low[..n - 1];
      LeadingZeros(low[..n - 1]);
    }
  }

  /** The legacy counter is the counter of RFC 4226 exactly for the slices from 0 to
      2^32 - 1; every other PHP int, a negative one included, is packed differently. */
  lemma PackTimeSlice32Agrees(slice: int)
    requires PhpIntMin <= slice <= PhpIntMax
    ensures PackTimeSlice32(slice) == PackTimeSlice(slice) <==> 0 <= slice < TwoTo32
  {
    var legacy, current := PackTimeSlice32(slice), PackTimeSlice(slice);
    if 0 <= slice < TwoTo32 {
      SmallSliceWraps(slice);
      BigEndianValueInjective(legacy, current);
    } else {
      WrapsDiffer(slice);
    }
  }

  lemma SmallSliceWraps(slice: int)
    requires 0 <= slice < TwoTo32
    ensures slice % TwoTo32 == slice && slice % TwoTo64 == slice
  {
  }

  /** Outside 0..2^32-1, a PHP int modulo 2^32 and modulo 2^64 differ. */
  lemma WrapsDiffer(slice: int)
    requires PhpIntMin <= slice <= PhpIntMax && !(0 <= slice < TwoTo32)
    ensures slice % TwoTo32 != slice % TwoTo64
  {
    if slice >= 0 {
      assert slice % TwoTo64 == slice;
    } else {
      assert slice % TwoTo64 == slice + TwoTo64;
    }
  }

  /** The slice of the counter the legacy engine actually uses. */
  lemma PackTimeSlice32IsWrapped(slice: int)
    ensures PackTimeSlice32(slice) == PackTimeSlice(slice % TwoTo32)
  {
    PackTimeSlice32Agrees(slice % TwoTo32);
    assert (slice % TwoTo32) % TwoTo32 == slice % TwoTo32;
    PackTimeSliceInjective(slice % TwoTo32, slice % TwoTo32);
    BigEndianValueInjective(PackTimeSlice32(slice), PackTimeSlice32(slice % TwoTo32));
  }

  // ---------------------------------------------------------------------------
  // Codes

  /** `getCode` for an explicit slice: the decoder's exception for a text that is not
      Base32, otherwise the RFC 4226 HOTP value of the decoded secret with the slice
      modulo 2^32 as counter, as 6 digits. */
  function Code32(hmac: Hmac, secret: string, slice: int): (r: Result<string, LegacyBase32.PhpError>)
    ensures r.Err? <==> Base32Spec.Decode(secret).Err?
    ensures r.Err? ==> r.error == LegacyBase32.InvalidArgument(LegacyBase32.InvalidBase32Message)
    ensures r.Ok? ==> |r.value| == CodeLength && AllDigits(r.value) &&
                      DecimalValue(r.value) ==
                        HotpValue(hmac, HashAlgorithm, Base32Spec.Decode(secret).value, slice % TwoTo32, CodeLength)
  {
    match Base32Spec.Decode(secret)
    case Err(_) => Err(LegacyBase32.InvalidArgument(LegacyBase32.InvalidBase32Message))
    case Ok(key) =>
      var hash := hmac(HashAlgorithm, PackTimeSlice32(slice), key);
      var offset := hash[19] % 16;
      var code := ExtractCodeFromHash(hash, offset, CodeLength);
      PackTimeSlice32IsWrapped(slice);
      FormatFixedWidth(code, CodeLength);
      Ok(PadLeft(IntToString(code), CodeLength, '0'))
  }

  /** For a secret the current engine accepts and a slice below 2^32, the legacy code
      is the code the current engine generates with SHA-1 and 6 digits. */
  lemma Code32Agrees(hmac: Hmac, secret: string, slice: int)
    requires ValidateSecret(secret).Ok? && 0 <= slice < TwoTo32
    ensures Code32(hmac, secret, slice) == Ok(Code(hmac, Sha1, 6, secret, slice).value)
  {
    var key := Base32Spec.Decode(secret).value;
    PackTimeSlice32Agrees(slice);
    var hash := hmac(Sha1, PackTimeSlice(slice), key);
    assert hash[19] % 16 == DynamicOffset(hash);
  }

  // ---------------------------------------------------------------------------
  // Verification

  /** The legacy `getCode` of `slice` is `code`. */
  predicate Matches32(hmac: Hmac, secret: string, code: string, slice: int)
  {
    Code32(hmac, secret, slice) == Ok(code)
  }

  /** Some slice of `lo..hi` generates the code. */
  ghost predicate AnyMatch32(hmac: Hmac, secret: string, code: string, lo: int, hi: int)
  {
    exists s :: lo <= s <= hi && Matches32(hmac, secret, code, s)
  }

  /** `verifyCode`: the offsets from -discrepancy to discrepancy in turn. A negative
      discrepancy runs no pass and answers false whatever the secret; otherwise a secret
      the decoder refuses raises at the first pass, and a valid one answers whether
      some slice of the window generates the code. */
  method VerifyCode32(hmac: Hmac, secret: string, code: string, discrepancy: int, slice: int)
    returns (r: Result<bool, LegacyBase32.PhpError>)
    ensures discrepancy < 0 ==> r == Ok(false)
    ensures discrepancy >= 0 && Base32Spec.Decode(secret).Err? ==>
              r == Err(LegacyBase32.InvalidArgument(LegacyBase32.InvalidBase32Message))
    ensures Base32Spec.Decode(secret).Ok? ==>
              r.Ok? && (r.value <==> AnyMatch32(hmac, secret, code, slice - discrepancy, slice + discrepancy))
  {
    var offset := -discrepancy;
    while offset <= discrepancy
      invariant discrepancy >= 0 ==> -discrepancy <= offset
      invariant Base32Spec.Decode(secret).Err? ==> offset == -discrepancy
      invariant forall s :: slice - discrepancy <= s < slice + offset ==> !Matches32(hmac, secret, code, s)
    {
      var candidate := slice + offset;
      var generated := Code32(hmac, secret, candidate);
      if generated.Err? {
        return Err(generated.error);
      }
      if generated.value == code {
        assert Matches32(hmac, secret, code, candidate);
        return Ok(true);
      }
      offset := offset + 1;
    }
    return Ok(false);
  }

  /** What the library's own test expects: a code generated for a slice of the window
      is accepted. */
  lemma OwnCodeInWindow(hmac: Hmac, secret: string, discrepancy: int, slice: int, offset: int)
    requires Base32Spec.Decode(secret).Ok?
    requires -discrepancy <= offset <= discrepancy
    ensures AnyMatch32(hmac, secret, Code32(hmac, secret, slice + offset).value,
                       slice - discrepancy, slice + discrepancy)
  {
    var code := Code32(hmac, secret, slice + offset).value;
    assert Matches32(hmac, secret, code, slice + offset);
  }

  /** With a secret the current engine accepts and a window inside 0..2^32-1, the legacy
      and the current engine (SHA-1, 6 digits) accept the same codes. */
  lemma WindowAgrees(hmac: Hmac, secret: string, code: string, lo: int, hi: int)
    requires ValidateSecret(secret).Ok? && 0 <= lo && hi < TwoTo32
    ensures AnyMatch32(hmac, secret, code, lo, hi) <==> AnyMatch(hmac, Sha1, 6, secret, code, lo, hi)
  {
    if AnyMatch32(hmac, secret, code, lo, hi) {
      var s :| lo <= s <= hi && Matches32(hmac, secret, code, s);
      Code32Agrees(hmac, secret, s);
      assert Matches(hmac, Sha1, 6, secret, code, s);
    }
    if AnyMatch(hmac, Sha1, 6, secret, code, lo, hi) {
      var s :| lo <= s <= hi && Matches(hmac, Sha1, 6, secret, code, s);
      Code32Agrees(hmac, secret, s);
      assert Matches32(hmac, secret, code, s);
    }
  }

  // ---------------------------------------------------------------------------
  // Secrets

  /** `generateSecret` as written: `encodeUpper` raises a TypeError, which is not an
      `Exception`, so the `catch` lets it through and no secret is ever returned. */
  method GenerateSecretAsWritten(randomBytes: seq<byte>) returns (r: Result<string, LegacyBase32.PhpError>)
    requires |randomBytes| == 20
    ensures r.Err? && r.error.TypeError?
  {
    r := LegacyBase32.EncodeUpperAsWritten(randomBytes);
  }

  /** `generateSecret` over the corrected encoder: 32 symbols that decode back to the
      20 random bytes and that the current engine's `validateSecret` accepts. */
  method GenerateSecret(randomBytes: seq<byte>) returns (secret: string)
    requires |randomBytes| == 20
    ensures |secret| == 32 && Base32Spec.AllSymbols(secret)
    ensures Base32Spec.Decode(secret) == Ok(randomBytes)
    ensures ValidateSecret(secret) == Ok(20)
  {
    secret := LegacyBase32.EncodeUpper(randomBytes);
    TwentyBytes(randomBytes);
    TwentyByteEncoding(randomBytes);
    EncodedSecretValidates(randomBytes);
    Base32Spec.EncodeDecodeRoundTrip(randomBytes);
  }

  /** Twenty bytes fill four groups exactly, so the encoder's trimming removes nothing. */
  lemma TwentyBytes(data: seq<byte>)
    requires |data| == 20
    ensures Base32Spec.TrimPadding(Base32Spec.Encode(data)) == Base32Spec.Encode(data)
  {
    var s := Base32Spec.Encode(data);
    TwentyByteEncoding(data);
    Base32Spec.TrimPaddingOfSymbols(s, 0);
    assert s + Base32Spec.Padding(0) == s;
  }
}
