/** The pure part of the TOTP engine (src/Totp/AbstractTotp.php, src/Totp/Totp.php):
    the secret and code validators, the packing of the time slice as the 8-byte
    counter of RFC 4226 section 5.1, the dynamic truncation of section 5.3, and the
    window searches behind `verifyCode` and `verifyCodeOnce` (RFC 6238 section 5.2).

    HMAC is a parameter `hmac` that returns 20, 32 or 64 bytes for SHA-1, SHA-256 and
    SHA-512; the clock is a parameter too, the current time slice. */
module TotpCore {
  import opened Bits
  import opened Results
  import opened PhpStrings
  import Base32Spec

  datatype Algorithm = Sha1 | Sha256 | Sha512

  /** The name `hash_hmac` is given. */
  function AlgorithmName(a: Algorithm): string
  {
    match a
    case Sha1 => "sha1"
    case Sha256 => "sha256"
    case Sha512 => "sha512"
  }

  /** The digest length of each hash, in bytes. */
  function DigestLength(a: Algorithm): nat
  {
    match a
    case Sha1 => 20
    case Sha256 => 32
    case Sha512 => 64
  }

  /** `hash_hmac($algorithm, $message, $key, true)`: some function returning a digest of
      the algorithm's length. */
  type Hmac = f: (Algorithm, seq<byte>, seq<byte>) -> seq<byte>
    | forall a, message, key :: |f(a, message, key)| == DigestLength(a)
    witness (a: Algorithm, message: seq<byte>, key: seq<byte>) => seq(DigestLength(a), _ => 0)

  /** The exceptions of the engine, one per message key it raises with. */
  datatype TotpError =
    | SecretEmpty
    | SecretLength
    | SecretCharacters
    | InvalidBase32Character(c: char)
    | CodeFormat(digits: int)
    | UnsupportedAlgorithm
    | InvalidDigits
    | InvalidPeriod
    | InvalidDiscrepancy(maxDiscrepancy: int)

  // ---------------------------------------------------------------------------
  // Validation

  /** `[A-Z2-7]+=*` matching the whole of `s`: one or more symbols, then only '='. */
  predicate SymbolsThenPadding(s: string)
  {
    var t := Base32Spec.TrimPadding(s);
    |t| >= 1 && Base32Spec.AllSymbols(t)
  }

  /** The same pattern read as a split point between the symbols and the padding. */
  lemma SymbolsThenPaddingSplit(s: string)
    ensures SymbolsThenPadding(s) <==>
            exists k :: 1 <= k <= |s| && Base32Spec.AllSymbols(s[..k]) && Base32Spec.AllPadding(s[k..])
  {
    var t := Base32Spec.TrimPadding(s);
    if SymbolsThenPadding(s) {
      assert s[..|t|] == t;
    }
    if k :| 1 <= k <= |s| && Base32Spec.AllSymbols(s[..k]) && Base32Spec.AllPadding(s[k..]) {
      TrimmedAtSplit(s, k);
    }
  }

  /** Trimming the '=' stops at the last symbol. */
  lemma {:induction false} TrimmedAtSplit(s: string, k: nat)
    requires 1 <= k <= |s|
    requires Base32Spec.AllSymbols(s[..k]) && Base32Spec.AllPadding(s[k..])
    ensures Base32Spec.TrimPadding(s) == s[..k]
    decreases |s|
  {
    if |s| == k {
      assert s[..k][k - 1] == s[k - 1];
      assert s[..k] == s;
    } else {
      var front := s[..|s| - 1];
      assert s[k..][|s| - 1 - k] == '=';
      assert front[..k] == s[..k];
      assert front[k..] == s[k..|s| - 1];
      TrimmedAtSplit(front, k);
    }
  }

  /** `preg_match('/^[A-Z2-7]+=*$/', $s) === 1`. Without the D modifier PCRE lets `$`
      match just before a final newline, so one trailing "\n" is accepted too. */
  predicate MatchesSecretPattern(s: string)
  {
    || SymbolsThenPadding(s)
    || (|s| >= 1 && s[|s| - 1] == '\n' && SymbolsThenPadding(s[..|s| - 1]))
  }

  /** `validateSecret`: the checks in their order, then the decoding of the secret.
      On success the result is the decoded length in bytes; a length below 20 is what
      the weak-secret log line reports, and is never an error. */
  function ValidateSecret(secret: string): (r: Result<nat, TotpError>)
    ensures secret == "" ==> r == Err(SecretEmpty)
    ensures secret != "" && |secret| % 8 != 0 ==> r == Err(SecretLength)
    ensures secret != "" && |secret| % 8 == 0 && !MatchesSecretPattern(secret) ==> r == Err(SecretCharacters)
    ensures r.Ok? ==> Base32Spec.Decode(secret).Ok? && r.value == |Base32Spec.Decode(secret).value|
  {
    if secret == "" then Err(SecretEmpty)
    else if |secret| % 8 != 0 then Err(SecretLength)
    else if !MatchesSecretPattern(secret) then Err(SecretCharacters)
    else
      match Base32Spec.Decode(secret)
      case Err(c) => Err(InvalidBase32Character(c))
      case Ok(bytes) => Ok(|bytes|)
  }

  /** The secrets `validateSecret` accepts are exactly the non-empty texts of a length
      divisible by 8 made of symbols followed only by '='; they decode to
      floor(5m/8) bytes for m symbols. */
  lemma ValidateSecretAccepts(secret: string)
    ensures ValidateSecret(secret).Ok? <==>
            secret != "" && |secret| % 8 == 0 && SymbolsThenPadding(secret)
    ensures ValidateSecret(secret).Ok? ==>
            ValidateSecret(secret).value == 5 * |Base32Spec.TrimPadding(secret)| / 8
  {
    Base32Spec.DecodeErr(secret);
    var t := Base32Spec.TrimPadding(secret);
    if secret != "" && |secret| % 8 == 0 && MatchesSecretPattern(secret) && !SymbolsThenPadding(secret) {
      // the pattern matched only thanks to the final newline, which the decoder refuses
      assert secret[|secret| - 1] == '\n';
      assert t == secret;
      assert !Base32Spec.IsSymbol(t[|t| - 1]);
    }
    if ValidateSecret(secret).Ok? {
      Base32Spec.DecodeLength(secret);
    }
  }

  /** Every text the encoder writes for a non-empty input passes `validateSecret`, which
      reports the input's length. */
  lemma EncodedSecretValidates(data: seq<byte>)
    requires |data| > 0
    ensures ValidateSecret(Base32Spec.Encode(data)) == Ok(|data|)
  {
    var s, k := Base32Spec.Encode(data), (8 * |data| + 4) / 5;
    Base32Spec.EncodeLayout(data);
    EncodedCounts(|data|);
    TrimmedAtSplit(s, k);
    assert SymbolsThenPadding(s);
    Base32Spec.EncodeDecodeRoundTrip(data);
    assert ValidateSecret(s) == Ok(|data|);
  }

  lemma EncodedCounts(n: nat)
    requires n > 0
    ensures (8 * ((n + 4) / 5)) % 8 == 0 && 1 <= (8 * n + 4) / 5
  {
  }

  /** Twenty bytes encode to 32 symbols and no padding. */
  lemma TwentyByteEncoding(data: seq<byte>)
    requires |data| == 20
    ensures |Base32Spec.Encode(data)| == 32 && Base32Spec.AllSymbols(Base32Spec.Encode(data))
  {
    var s := Base32Spec.Encode(data);
    Base32Spec.EncodeLayout(data);
    assert (8 * |data| + 4) / 5 == 32;
    assert (|data| + 4) / 5 == 4;
    assert s[..32] == s;
  }

  /** A secret that matches the pattern only through its final newline passes the
      pattern check and is then refused by the decoder, which names the first character
      after the symbols: the newline, or the first '='. */
  lemma NewlineSecretFailsInDecoder(body: string)
    requires SymbolsThenPadding(body) && (|body| + 1) % 8 == 0
    ensures MatchesSecretPattern(body + "\n")
    ensures var tb := Base32Spec.TrimPadding(body);
            ValidateSecret(body + "\n") == Err(InvalidBase32Character(if tb == body then '\n' else '='))
  {
    var s := body + "\n";
    NewlinePattern(body);
    NewlineSecretDecodes(body);
    var c := if Base32Spec.TrimPadding(body) == body then '\n' else '=';
    NewlineLength(body);
    DecoderRefuses(s, c);
  }

  lemma NewlineLength(body: string)
    requires (|body| + 1) % 8 == 0
    ensures |body + "\n"| % 8 == 0
  {
  }

  lemma NewlinePattern(body: string)
    requires SymbolsThenPadding(body)
    ensures MatchesSecretPattern(body + "\n")
  {
    var s := body + "\n";
    assert s[..|s| - 1] == body;
  }

  /** Once the pattern check passes, the decoder's refusal is `validateSecret`'s error. */
  lemma DecoderRefuses(secret: string, c: char)
    requires secret != "" && |secret| % 8 == 0 && MatchesSecretPattern(secret)
    requires Base32Spec.Decode(secret) == Err(c)
    ensures ValidateSecret(secret) == Err(InvalidBase32Character(c))
  {
  }

  /** The decoder stops at the first character after the symbols of `body + "\n"`. */
  lemma NewlineSecretDecodes(body: string)
    requires SymbolsThenPadding(body)
    ensures var tb := Base32Spec.TrimPadding(body);
            Base32Spec.Decode(body + "\n") == Err(if tb == body then '\n' else '=')
  {
    var s := body + "\n";
    assert s[..|s| - 1] == body;
    assert Base32Spec.TrimPadding(s) == s;
    var tb := Base32Spec.TrimPadding(body);
    var m := |tb|;
    assert s[..m] == tb;
    var c := if tb == body then '\n' else '=';
    assert s[m] == c by {
      if m < |body| {
        assert body[m..][0] == '=';
      }
    }
    assert Base32Spec.AllSymbols(tb);
    Base32Spec.SymbolsAreKeys();
    assert forall i :: 0 <= i < |tb| ==> tb[i] in Base32Spec.DecodeMap;
    Base32Spec.SymbolValuesOk(tb);
    var values := Base32Spec.SymbolValues(tb).value;
    Base32Spec.DecodeMapKeys();
    assert c !in Base32Spec.DecodeMap;
    Base32Spec.SymbolValuesStep(s, m, values);
  }

  /** `preg_match('/^\d{n}$/', $code) === 1`: exactly `digits` ASCII digits, with one
      final newline also accepted by PCRE's `$`. */
  predicate MatchesCodePattern(code: string, digits: nat)
  {
    || (|code| == digits && AllDigits(code))
    || (|code| == digits + 1 && code[digits] == '\n' && AllDigits(code[..digits]))
  }

  /** `validateCode`: the error it raises, if any. */
  function ValidateCode(code: string, digits: nat): (r: Option<TotpError>)
    ensures r.None? <==> MatchesCodePattern(code, digits)
    ensures r.Some? ==> r.value == CodeFormat(digits)
  {
    if MatchesCodePattern(code, digits) then None else Some(CodeFormat(digits))
  }

  // ---------------------------------------------------------------------------
  // Counter and truncation

  const TwoTo64: nat := 0x1_0000_0000_0000_0000

  /** `pack('J', $slice)`: the slice as an unsigned 64-bit big-endian counter, so a
      negative slice is written in two's complement. */
  function PackTimeSlice(slice: int): (r: seq<byte>)
    ensures |r| == 8
    ensures BigEndianValue(r) == slice % TwoTo64
  {
    assert Pow256(8) == TwoTo64;
    BigEndianValueOfToBytes(slice % TwoTo64, 8);
    ToBytes(slice % TwoTo64, 8)
  }

  /** Two slices pack alike exactly when they agree modulo 2^64. */
  lemma PackTimeSliceInjective(s: int, t: int)
    ensures PackTimeSlice(s) == PackTimeSlice(t) <==> s % TwoTo64 == t % TwoTo64
  {
    if s % TwoTo64 == t % TwoTo64 {
      BigEndianValueInjective(PackTimeSlice(s), PackTimeSlice(t));
    }
  }

  /** The counter of the library's test: 1234567890 packs to 00 00 00 00 49 96 02 D2,
      and -1 packs to eight FF bytes. */
  lemma PackTimeSliceExamples()
    ensures PackTimeSlice(1234567890) == [0x00, 0x00, 0x00, 0x00, 0x49, 0x96, 0x02, 0xD2]
    ensures PackTimeSlice(-1) == [0xFF, 0xFF, 0xFF, 0xFF, 0xFF, 0xFF, 0xFF, 0xFF]
  {
    assert ToBytes(1234567890, 8) == [0x00, 0x00, 0x00, 0x00, 0x49, 0x96, 0x02, 0xD2];
    assert -1 % TwoTo64 == 0xFFFF_FFFF_FFFF_FFFF;
    assert ToBytes(0xFFFF_FFFF_FFFF_FFFF, 8) == [0xFF, 0xFF, 0xFF, 0xFF, 0xFF, 0xFF, 0xFF, 0xFF];
  }

  /** `extractCodeFromHash`: the four bytes at `offset` with the top bit of the first
      cleared, read big-endian, modulo 10^digits. The shifted bytes occupy disjoint bits,
      so the source's `|` is the sum written here. */
  function ExtractCodeFromHash(hash: seq<byte>, offset: nat, digits: nat): (code: nat)
    requires offset + 4 <= |hash|
    ensures code < Pow10(digits)
    ensures code == (BigEndianValue(hash[offset..offset + 4]) % 0x8000_0000) % Pow10(digits)
  {
    var window := hash[offset..offset + 4];
    var hash1 := window[0] as int % 0x80;
    var value := hash1 * 0x100_0000 + window[1] as int * 0x1_0000 + window[2] as int * 0x100 + window[3] as int;
    Low31Bits(window);
    value % Pow10(digits)
  }

  /** Clearing the top bit of the first of four bytes keeps the low 31 bits of their
      big-endian value. */
  lemma Low31Bits(w: seq<byte>)
    requires |w| == 4
    ensures BigEndianValue(w) % 0x8000_0000 ==
            (w[0] as int % 0x80) * 0x100_0000 + w[1] as int * 0x1_0000 + w[2] as int * 0x100 + w[3] as int
  {
    var b0, b1, b2, b3 := w[0] as int, w[1] as int, w[2] as int, w[3] as int;
    assert w[..3][..2][..1][..0] == [];
    assert BigEndianValue(w[..3][..2][..1]) == b0;
    assert BigEndianValue(w[..3][..2]) == b0 * 0x100 + b1;
    assert BigEndianValue(w[..3]) == b0 * 0x1_0000 + b1 * 0x100 + b2;
    assert BigEndianValue(w) == b0 * 0x100_0000 + b1 * 0x1_0000 + b2 * 0x100 + b3;
    var low := (b0 % 0x80) * 0x100_0000 + b1 * 0x1_0000 + b2 * 0x100 + b3;
    assert BigEndianValue(w) == (b0 / 0x80) * 0x8000_0000 + low;
    DivModOfSum(b0 / 0x80, low, 0x8000_0000);
  }

  lemma ExtractCodeExample()
    ensures ExtractCodeFromHash([0x01, 0x02, 0x03, 0x04], 0, 6) == 909060
  {
    assert Pow10(6) == 1000000;
  }

  /** The offset of dynamic truncation: the low nibble of the last digest byte. It is at
      most 15, so the four bytes read stay inside every digest of 20 bytes or more. */
  function DynamicOffset(hash: seq<byte>): (offset: nat)
    requires |hash| >= 20
    ensures offset <= 15 && offset + 4 <= |hash|
  {
    hash[|hash| - 1] % 16
  }

  /** The HOTP value of RFC 4226 section 5.3: the 31-bit dynamic truncation of the
      HMAC of the counter, modulo 10^digits. */
  function HotpValue(hmac: Hmac, algorithm: Algorithm, key: seq<byte>, counter: int, digits: nat): nat
  {
    var hash := hmac(algorithm, PackTimeSlice(counter), key);
    var offset := hash[|hash| - 1] % 16;
    (BigEndianValue(hash[offset..offset + 4]) % 0x8000_0000) % Pow10(digits)
  }

  /** `getCode` for an explicit time slice: the secret is validated first; the code is
      the HOTP value of the decoded secret and the slice, as exactly `digits` decimal
      digits. */
  function Code(hmac: Hmac, algorithm: Algorithm, digits: nat, secret: string, slice: int): (r: Result<string, TotpError>)
    requires 1 <= digits
    ensures r.Err? <==> ValidateSecret(secret).Err?
    ensures r.Err? ==> r.error == ValidateSecret(secret).error
    ensures r.Ok? ==> |r.value| == digits && AllDigits(r.value)
  {
    match ValidateSecret(secret)
    case Err(e) => Err(e)
    case Ok(_) =>
      var key := Base32Spec.Decode(secret).value;
      var hash := hmac(algorithm, PackTimeSlice(slice), key);
      var offset := DynamicOffset(hash);
      var code := ExtractCodeFromHash(hash, offset, digits);
      FormatFixedWidth(code, digits);
      Ok(PadLeft(IntToString(code), digits, '0'))
  }

  /** A generated code is the HOTP value of RFC 4226 for the decoded secret as key and the
      slice as counter, written with leading zeros. */
  lemma CodeIsHotp(hmac: Hmac, algorithm: Algorithm, digits: nat, secret: string, slice: int)
    requires 1 <= digits
    requires Code(hmac, algorithm, digits, secret, slice).Ok?
    ensures var r := Code(hmac, algorithm, digits, secret, slice).value;
            DecimalValue(r) == HotpValue(hmac, algorithm, Base32Spec.Decode(secret).value, slice, digits)
  {
    var key := Base32Spec.Decode(secret).value;
    var hash := hmac(algorithm, PackTimeSlice(slice), key);
    var code := ExtractCodeFromHash(hash, DynamicOffset(hash), digits);
    HotpFromHash(hmac, algorithm, key, slice, digits);
    FormatFixedWidth(code, digits);
  }

  /** The HOTP value is the code extracted at the hash's dynamic offset. */
  lemma HotpFromHash(hmac: Hmac, algorithm: Algorithm, key: seq<byte>, counter: int, digits: nat)
    ensures var hash := hmac(algorithm, PackTimeSlice(counter), key);
            HotpValue(hmac, algorithm, key, counter, digits) == ExtractCodeFromHash(hash, DynamicOffset(hash), digits)
  {
  }

  /** A code that passes `validateCode` only thanks to a final newline never equals a
      generated code, so the verifiers answer false for it rather than raising. */
  lemma NewlineCodeNeverMatches(hmac: Hmac, algorithm: Algorithm, digits: nat, secret: string, slice: int, code: string)
    requires 1 <= digits
    requires MatchesCodePattern(code, digits) && !(|code| == digits && AllDigits(code))
    ensures Code(hmac, algorithm, digits, secret, slice) != Ok(code)
  {
  }

  // ---------------------------------------------------------------------------
  // Window searches

  /** `hash_equals($this->getCode($secret, $slice), $code)`: the slice generates exactly
      the code. */
  predicate Matches(hmac: Hmac, algorithm: Algorithm, digits: nat, secret: string, code: string, slice: int)
    requires 1 <= digits
  {
    Code(hmac, algorithm, digits, secret, slice) == Ok(code)
  }

  /** A slice whose generated code differs from `code` extends a run of slices that do
      not match. */
  lemma MissExtends(hmac: Hmac, algorithm: Algorithm, digits: nat, secret: string, code: string,
                    lo: int, x: int, lastAccepted: int)
    requires 1 <= digits
    requires forall s :: lo <= s < x && s > lastAccepted ==> !Matches(hmac, algorithm, digits, secret, code, s)
    requires x <= lastAccepted || Code(hmac, algorithm, digits, secret, x) != Ok(code)
    ensures forall s :: lo <= s < x + 1 && s > lastAccepted ==> !Matches(hmac, algorithm, digits, secret, code, s)
  {
  }

  /** Some slice of `lo..hi` generates the code. */
  ghost predicate AnyMatch(hmac: Hmac, algorithm: Algorithm, digits: nat, secret: string, code: string,
                           lo: int, hi: int)
    requires 1 <= digits
  {
    exists s :: lo <= s <= hi && Matches(hmac, algorithm, digits, secret, code, s)
  }

  /** `r` is the earliest slice of `lo..hi` after `lastAccepted` that generates the code,
      or `None` when there is no such slice. */
  ghost predicate FirstMatchAfter(hmac: Hmac, algorithm: Algorithm, digits: nat, secret: string, code: string,
                                  lastAccepted: int, lo: int, hi: int, r: Option<int>)
    requires 1 <= digits
  {
    match r
    case Some(t) =>
      lo <= t <= hi && t > lastAccepted && Matches(hmac, algorithm, digits, secret, code, t) &&
      forall s :: lo <= s < t && s > lastAccepted ==> !Matches(hmac, algorithm, digits, secret, code, s)
    case None =>
      forall s :: lo <= s <= hi && s > lastAccepted ==> !Matches(hmac, algorithm, digits, secret, code, s)
  }

  /** The earliest matching slice is determined: two answers that both satisfy the
      description are the same answer. */
  lemma FirstMatchUnique(hmac: Hmac, algorithm: Algorithm, digits: nat, secret: string, code: string,
                         lastAccepted: int, lo: int, hi: int, r1: Option<int>, r2: Option<int>)
    requires 1 <= digits
    requires FirstMatchAfter(hmac, algorithm, digits, secret, code, lastAccepted, lo, hi, r1)
    requires FirstMatchAfter(hmac, algorithm, digits, secret, code, lastAccepted, lo, hi, r2)
    ensures r1 == r2
  {
  }

  /** Replay protection: once slice `t` is accepted and recorded as the last accepted
      one, the same window can only accept a later slice, never `t` or an earlier one.
      That first ensures is already part of `FirstMatchAfter`; the lemma's content is the
      second: the very next slice is accepted whenever it matches, so the search does not
      skip ahead. */
  lemma NoReplay(hmac: Hmac, algorithm: Algorithm, digits: nat, secret: string, code: string,
                 lastAccepted: int, lo: int, hi: int, t: int, again: Option<int>)
    requires 1 <= digits
    requires FirstMatchAfter(hmac, algorithm, digits, secret, code, lastAccepted, lo, hi, Some(t))
    requires FirstMatchAfter(hmac, algorithm, digits, secret, code, t, lo, hi, again)
    ensures again.None? || again.value > t
    ensures t < hi && Matches(hmac, algorithm, digits, secret, code, t + 1) ==> again == Some(t + 1)
  {
    if t < hi && Matches(hmac, algorithm, digits, secret, code, t + 1) {
      FirstMatchUnique(hmac, algorithm, digits, secret, code, t, lo, hi, again, Some(t + 1));
    }
  }

  /** The replay-safe search accepts only where the plain window check answers true, and
      with nothing recorded inside the window the two agree. */
  lemma FirstMatchWithinWindow(hmac: Hmac, algorithm: Algorithm, digits: nat, secret: string, code: string,
                               lastAccepted: int, lo: int, hi: int, r: Option<int>)
    requires 1 <= digits
    requires FirstMatchAfter(hmac, algorithm, digits, secret, code, lastAccepted, lo, hi, r)
    ensures r.Some? ==> AnyMatch(hmac, algorithm, digits, secret, code, lo, hi)
    ensures lastAccepted < lo ==> (r.Some? <==> AnyMatch(hmac, algorithm, digits, secret, code, lo, hi))
  {
    if r.Some? {
      assert Matches(hmac, algorithm, digits, secret, code, r.value);
    }
    if lastAccepted < lo && AnyMatch(hmac, algorithm, digits, secret, code, lo, hi) {
      var s :| lo <= s <= hi && Matches(hmac, algorithm, digits, secret, code, s);
      assert r.Some?;
    }
  }
}
