/** The configurable TOTP engine of src/Totp/Totp.php on top of src/Totp/AbstractTotp.php:
    a class whose fields are the algorithm, the code length, the period and the largest
    discrepancy a verification may ask for.

    HMAC is the parameter `hmac`; the current time slice, which the source computes from
    the clock, is the parameter `slice` (or `now`); the random bytes of a new secret are
    the parameter `randomBytes`. */
module TotpEngine {
  import opened Bits
  import opened Results
  import opened PhpStrings
  import opened TotpCore
  import Base32Spec
  import Base32

  /** The PHP values an options array can hold, as far as `configure` tells them apart;
      `Other` stands for booleans, floats, arrays and objects. */
  datatype PhpValue = Null | Int(i: int) | Str(s: string) | Other

  /** `isset($options[$key])`: present and not null. */
  predicate IsSet(options: map<string, PhpValue>, key: string)
  {
    key in options && options[key] != Null
  }

  /** `in_array($value, SUPPORTED_ALGORITHMS, true)`: the algorithm a supported name
      stands for. */
  function SupportedAlgorithm(v: PhpValue): (r: Option<Algorithm>)
    ensures r.Some? <==> v.Str? && v.s in {"sha1", "sha256", "sha512"}
    ensures r.Some? ==> AlgorithmName(r.value) == v.s
  {
    if v == Str("sha1") then Some(Sha1)
    else if v == Str("sha256") then Some(Sha256)
    else if v == Str("sha512") then Some(Sha512)
    else None
  }

  /** `in_array($value, [6, 8], true)`: only the integers 6 and 8. */
  predicate ValidDigitsOption(v: PhpValue)
  {
    v == Int(6) || v == Int(8)
  }

  /** `is_int($value) && $value > 0`. */
  predicate ValidPeriodOption(v: PhpValue)
  {
    v.Int? && v.i > 0
  }

  /** The three fields `configure` may change. */
  datatype Settings = Settings(algorithm: Algorithm, digits: nat, period: nat)

  predicate ValidSettings(s: Settings)
  {
    (s.digits == 6 || s.digits == 8) && s.period > 0
  }

  /** `configure`: the options are checked and applied one at a time, algorithm, then
      digits, then period; the first bad one raises, and what was applied before it
      stays applied. The result is the new settings and the error raised, if any. */
  function Configured(s: Settings, options: map<string, PhpValue>): (Settings, Option<TotpError>)
  {
    if IsSet(options, "algorithm") && SupportedAlgorithm(options["algorithm"]).None? then
      (s, Some(UnsupportedAlgorithm))
    else
      var s1 := if IsSet(options, "algorithm") then s.(algorithm := SupportedAlgorithm(options["algorithm"]).value) else s;
      if IsSet(options, "digits") && !ValidDigitsOption(options["digits"]) then
        (s1, Some(InvalidDigits))
      else
        var s2 := if IsSet(options, "digits") then s1.(digits := options["digits"].i) else s1;
        if IsSet(options, "period") && !ValidPeriodOption(options["period"]) then
          (s2, Some(InvalidPeriod))
        else
          (if IsSet(options, "period") then s2.(period := options["period"].i) else s2, None)
  }

  /** Which error `configure` raises: the first option, in the order algorithm, digits,
      period, that is set and not acceptable; none when every set option is acceptable. */
  lemma ConfiguredError(s: Settings, options: map<string, PhpValue>)
    ensures var algorithmOk := IsSet(options, "algorithm") ==> SupportedAlgorithm(options["algorithm"]).Some?;
            var digitsOk := IsSet(options, "digits") ==> ValidDigitsOption(options["digits"]);
            var periodOk := IsSet(options, "period") ==> ValidPeriodOption(options["period"]);
            var err := Configured(s, options).1;
            && (err.None? <==> algorithmOk && digitsOk && periodOk)
            && (err == Some(UnsupportedAlgorithm) <==> !algorithmOk)
            && (err == Some(InvalidDigits) <==> algorithmOk && !digitsOk)
            && (err == Some(InvalidPeriod) <==> algorithmOk && digitsOk && !periodOk)
  {
  }

  /** What each field becomes: the option's value when the option is set, acceptable and
      reached before any error; the old value otherwise. In particular an absent or null
      option changes nothing, and an accepted algorithm stays applied when the digits or
      the period are refused. */
  lemma ConfiguredFields(s: Settings, options: map<string, PhpValue>)
    ensures var (t, err) := Configured(s, options);
            && t.algorithm == (if IsSet(options, "algorithm") && SupportedAlgorithm(options["algorithm"]).Some?
                               then SupportedAlgorithm(options["algorithm"]).value else s.algorithm)
            && t.digits == (if err != Some(UnsupportedAlgorithm) && IsSet(options, "digits") && ValidDigitsOption(options["digits"])
                            then options["digits"].i else s.digits)
            && t.period == (if err.None? && IsSet(options, "period") then options["period"].i else s.period)
  {
  }

  /** `configure` keeps the code length at 6 or 8 and the period positive. */
  lemma ConfiguredKeepsValid(s: Settings, options: map<string, PhpValue>)
    requires ValidSettings(s)
    ensures ValidSettings(Configured(s, options).0)
  {
  }

  /** One of the strings `getAlgorithm` can return. */
  predicate IsSupportedName(name: string)
  {
    name == "sha1" || name == "sha256" || name == "sha512"
  }

  /** A warning of `auditSecret`, one per message key it reports with. */
  datatype AuditWarning = AuditEmpty | AuditInvalidBase32 | AuditZeroBytes | AuditWeak(lengthBytes: nat)

  /** The array `auditSecret` returns. */
  datatype AuditReport = AuditReport(lengthBytes: nat, isStrong: bool, warnings: seq<AuditWarning>)

  /** The characters a Key URI field of this engine never contains. */
  predicate NoDelimiter(s: string)
  {
    forall i :: 0 <= i < |s| ==> s[i] != ':' && s[i] != '?' && s[i] != '&'
  }

  /** The text of `s` before its first `c` and the text after it; all of `s` and nothing
      when there is no `c`. */
  function SplitAt(s: string, c: char): (string, string)
  {
    match StrPos(s, c)
    case None => (s, "")
    case Some(i) => (s[..i], s[i + 1..])
  }

  /** Splitting at the first `c` undoes putting `c` after a text without one. */
  lemma SplitAtFirst(s: string, a: string, c: char, b: string)
    requires s == a + [c] + b
    requires forall i :: 0 <= i < |a| ==> a[i] != c
    ensures SplitAt(s, c) == (a, b)
  {
    assert forall j :: 0 <= j < |a| ==> s[j] == a[j];
    assert s[|a|] == c;
    var i := StrPos(s, c).value;
    assert s[..i] == a;
    assert s[i + 1..] == b;
  }

  lemma NoDelimiterAppend(a: string, b: string)
    requires NoDelimiter(a) && NoDelimiter(b)
    ensures NoDelimiter(a + b)
  {
    assert forall i :: 0 <= i < |b| ==> (a + b)[|a| + i] == b[i];
  }

  /** Percent-encoded text holds only unreserved characters and '%'. */
  lemma EncodedHasNoDelimiter(s: string)
    requires IsByteString(s)
    ensures NoDelimiter(RawUrlEncode(s))
  {
  }

  /** A secret `validateSecret` accepts holds only symbols and '='. */
  lemma SecretHasNoDelimiter(secret: string)
    requires ValidateSecret(secret).Ok?
    ensures NoDelimiter(secret)
  {
    ValidateSecretAccepts(secret);
    var t := Base32Spec.TrimPadding(secret);
    assert forall i :: 0 <= i < |t| ==> secret[i] == t[i];
    assert forall i :: |t| <= i < |secret| ==> secret[i] == secret[|t|..][i - |t|];
  }

  lemma FixedTextsHaveNoDelimiter(algorithm: Algorithm)
    ensures NoDelimiter("secret=") && NoDelimiter("issuer=") && NoDelimiter("algorithm=") && NoDelimiter("digits=")
    ensures NoDelimiter(StrToUpper(AlgorithmName(algorithm)))
  {
  }

  /** The query of a Key URI, regrouped as one parameter before each '&'. */
  lemma QueryLayout(secret: string, encodedIssuer: string, upperName: string, digits: string, period: string)
    ensures "secret=" + secret + "&issuer=" + encodedIssuer + "&algorithm=" + upperName + "&digits=" + digits +
            "&period=" + period ==
            ("secret=" + secret) + "&" + (("issuer=" + encodedIssuer) + "&" + (("algorithm=" + upperName) + "&" +
            (("digits=" + digits) + "&" + ("period=" + period))))
  {
  }

  /** The URI after its scheme and type, regrouped at the ':' and the '?'. */
  lemma UriLayout(encodedIssuer: string, encodedLabel: string, query: string)
    ensures var uri := "otpauth://totp/" + encodedIssuer + ":" + encodedLabel + "?" + query;
            |uri| >= 15 && uri[..15] == "otpauth://totp/" &&
            uri[15..] == encodedIssuer + ":" + (encodedLabel + "?" + query)
  {
  }

  lemma DigitsHaveNoDelimiter(s: string)
    requires AllDigits(s)
    ensures NoDelimiter(s)
  {
  }

  class Totp {
    var algorithm: Algorithm
    var digits: nat
    var period: nat
    /** The largest discrepancy a verification accepts; any int, as the source casts it. */
    var maxDiscrepancy: int

    ghost predicate Valid()
      reads this
    {
      ValidSettings(Settings(algorithm, digits, period))
    }

    function CurrentSettings(): Settings
      reads this
    {
      Settings(algorithm, digits, period)
    }

    /** `__construct`: the defaults sha1, 6 digits and 30 seconds; `maxDiscrepancy` is 10
        unless the `max_discrepancy` option is set. */
    constructor(maxDiscrepancyOption: Option<int>)
      ensures Valid()
      ensures algorithm == Sha1 && digits == 6 && period == 30
      ensures maxDiscrepancy == if maxDiscrepancyOption.Some? then maxDiscrepancyOption.value else 10
    {
      algorithm := Sha1;
      digits := 6;
      period := 30;
      maxDiscrepancy := if maxDiscrepancyOption.Some? then maxDiscrepancyOption.value else 10;
    }

    /** `configure`: the fields change exactly as `Configured` says, `maxDiscrepancy`
        never. */
    method Configure(options: map<string, PhpValue>) returns (err: Option<TotpError>)
      requires Valid()
      modifies this
      ensures Valid()
      ensures (CurrentSettings(), err) == Configured(old(CurrentSettings()), options)
      ensures maxDiscrepancy == old(maxDiscrepancy)
    {
      ConfiguredKeepsValid(CurrentSettings(), options);
      if IsSet(options, "algorithm") {
        var a := SupportedAlgorithm(options["algorithm"]);
        if a.None? {
          return Some(UnsupportedAlgorithm);
        }
        algorithm := a.value;
      }
      if IsSet(options, "digits") {
        if !ValidDigitsOption(options["digits"]) {
          return Some(InvalidDigits);
        }
        digits := options["digits"].i;
      }
      if IsSet(options, "period") {
        if !ValidPeriodOption(options["period"]) {
          return Some(InvalidPeriod);
        }
        period := options["period"].i;
      }
      return None;
    }

    /** `getAlgorithm`: always one of the supported names. */
    function GetAlgorithm(): (name: string)
      reads this
      ensures IsSupportedName(name)
      ensures SupportedAlgorithm(Str(name)) == Some(algorithm)
    {
      AlgorithmName(algorithm)
    }

    /** `getDigits`: 6 or 8 in every valid engine. */
    function GetDigits(): (d: nat)
      reads this
      ensures Valid() ==> d == 6 || d == 8
    {
      digits
    }

    /** `getPeriod`: positive in every valid engine. */
    function GetPeriod(): (p: nat)
      reads this
      ensures Valid() ==> p > 0
    {
      period
    }

    /** `getCurrentTimeSlice` at Unix time `unixTime`: the number of whole periods
        elapsed, so the time lies within that slice's period. */
    function CurrentTimeSlice(unixTime: int): (slice: int)
      reads this
      requires Valid()
      ensures period * slice <= unixTime < period * slice + period
    {
      unixTime / period
    }

    /** `generateSecret` for the given 20 random bytes: 32 symbols that pass
        `validateSecret` and decode back to those bytes. */
    method GenerateSecret(randomBytes: seq<byte>) returns (secret: string)
      requires |randomBytes| == 20
      ensures |secret| == 32 && Base32Spec.AllSymbols(secret)
      ensures ValidateSecret(secret) == Ok(20)
      ensures Base32Spec.Decode(secret) == Ok(randomBytes)
    {
      secret := Base32.EncodeUpper(randomBytes);
      TwentyByteEncoding(randomBytes);
      EncodedSecretValidates(randomBytes);
      Base32Spec.EncodeDecodeRoundTrip(randomBytes);
    }

    /** `getCode` for an explicit time slice: the secret's error, or `digits` decimal
        digits writing the RFC 4226 HOTP value of the decoded secret and the slice. */
    function GetCode(hmac: Hmac, secret: string, slice: int): (r: Result<string, TotpError>)
      reads this
      requires Valid()
      ensures r.Err? <==> ValidateSecret(secret).Err?
      ensures r.Err? ==> r.error == ValidateSecret(secret).error
      ensures r.Ok? ==> |r.value| == digits && AllDigits(r.value) &&
                        DecimalValue(r.value) == HotpValue(hmac, algorithm, Base32Spec.Decode(secret).value, slice, digits)
    {
      var r := Code(hmac, algorithm, digits, secret, slice);
      if r.Ok? then CodeIsHotp(hmac, algorithm, digits, secret, slice); r else r
    }

    /** `verifyCode`: the discrepancy is checked first, then the secret, then the code;
        after that the answer is whether some slice within the discrepancy of `slice`
        generates exactly `code`. */
    method VerifyCode(hmac: Hmac, secret: string, code: string, discrepancy: int, slice: int)
      returns (r: Result<bool, TotpError>)
      requires Valid()
      ensures r.Err? <==> discrepancy < 0 || discrepancy > maxDiscrepancy ||
                          ValidateSecret(secret).Err? || ValidateCode(code, digits).Some?
      ensures (discrepancy < 0 || discrepancy > maxDiscrepancy) ==> r == Err(InvalidDiscrepancy(maxDiscrepancy))
      ensures 0 <= discrepancy <= maxDiscrepancy && ValidateSecret(secret).Err? ==>
                r == Err(ValidateSecret(secret).error)
      ensures 0 <= discrepancy <= maxDiscrepancy && ValidateSecret(secret).Ok? && ValidateCode(code, digits).Some? ==>
                r == Err(CodeFormat(digits))
      ensures r.Ok? ==> (r.value <==> AnyMatch(hmac, algorithm, digits, secret, code,
                                               slice - discrepancy, slice + discrepancy))
    {
      if discrepancy < 0 || discrepancy > maxDiscrepancy {
        return Err(InvalidDiscrepancy(maxDiscrepancy));
      }
      var checked := ValidateSecret(secret);
      if checked.Err? {
        return Err(checked.error);
      }
      var codeError := ValidateCode(code, digits);
      if codeError.Some? {
        return Err(codeError.value);
      }
      var found := ScanWindow(hmac, secret, code, discrepancy, slice);
      return Ok(found);
    }

    /** The loop of `verifyCode`: the offsets from -discrepancy to discrepancy in turn,
        stopping at the first slice whose code is `code`. */
    method ScanWindow(hmac: Hmac, secret: string, code: string, discrepancy: int, slice: int)
      returns (found: bool)
      requires Valid() && ValidateSecret(secret).Ok?
      ensures found <==> AnyMatch(hmac, algorithm, digits, secret, code,
                                  slice - discrepancy, slice + discrepancy)
    {
      var offset := -discrepancy;
      while offset <= discrepancy
        invariant -discrepancy <= offset
        invariant forall s :: slice - discrepancy <= s < slice + offset ==>
                    !Matches(hmac, algorithm, digits, secret, code, s)
      {
        var candidate := slice + offset;
        var generated := GetCode(hmac, secret, candidate);
        if generated.value == code {
          assert Matches(hmac, algorithm, digits, secret, code, candidate);
          return true;
        }
        MissExtends(hmac, algorithm, digits, secret, code, slice - discrepancy, candidate, slice - discrepancy - 1);
        offset := offset + 1;
      }
      FirstMatchWithinWindow(hmac, algorithm, digits, secret, code,
                             slice - discrepancy - 1, slice - discrepancy, slice + discrepancy, None);
      return false;
    }

    /** `verifyCodeOnce` with the current slice `now`: after the same checks as
        `verifyCode`, the earliest slice of the window after `lastAccepted` that
        generates `code`, if any. */
    method VerifyCodeOnce(hmac: Hmac, secret: string, code: string, lastAccepted: int, discrepancy: int, now: int)
      returns (r: Result<Option<int>, TotpError>)
      requires Valid()
      ensures r.Err? <==> discrepancy < 0 || discrepancy > maxDiscrepancy ||
                          ValidateSecret(secret).Err? || ValidateCode(code, digits).Some?
      ensures (discrepancy < 0 || discrepancy > maxDiscrepancy) ==> r == Err(InvalidDiscrepancy(maxDiscrepancy))
      ensures 0 <= discrepancy <= maxDiscrepancy && ValidateSecret(secret).Err? ==>
                r == Err(ValidateSecret(secret).error)
      ensures 0 <= discrepancy <= maxDiscrepancy && ValidateSecret(secret).Ok? && ValidateCode(code, digits).Some? ==>
                r == Err(CodeFormat(digits))
      ensures r.Ok? ==> FirstMatchAfter(hmac, algorithm, digits, secret, code,
                                        lastAccepted, now - discrepancy, now + discrepancy, r.value)
    {
      if discrepancy < 0 || discrepancy > maxDiscrepancy {
        return Err(InvalidDiscrepancy(maxDiscrepancy));
      }
      var checked := ValidateSecret(secret);
      if checked.Err? {
        return Err(checked.error);
      }
      var codeError := ValidateCode(code, digits);
      if codeError.Some? {
        return Err(codeError.value);
      }
      var accepted := ScanWindowOnce(hmac, secret, code, lastAccepted, discrepancy, now);
      return Ok(accepted);
    }

    /** The loop of `verifyCodeOnce`: the offsets in turn, skipping the slices up to
        `lastAccepted`, stopping at the first slice whose code is `code`. */
    method ScanWindowOnce(hmac: Hmac, secret: string, code: string, lastAccepted: int, discrepancy: int, now: int)
      returns (accepted: Option<int>)
      requires Valid() && ValidateSecret(secret).Ok?
      ensures FirstMatchAfter(hmac, algorithm, digits, secret, code,
                              lastAccepted, now - discrepancy, now + discrepancy, accepted)
    {
      var offset := -discrepancy;
      while offset <= discrepancy
        invariant -discrepancy <= offset
        invariant forall s :: now - discrepancy <= s < now + offset && s > lastAccepted ==>
                    !Matches(hmac, algorithm, digits, secret, code, s)
      {
        var candidate := now + offset;
        if candidate > lastAccepted {
          var generated := GetCode(hmac, secret, candidate);
          if generated.value == code {
            return Some(candidate);
          }
        }
        MissExtends(hmac, algorithm, digits, secret, code, now - discrepancy, candidate, lastAccepted);
        offset := offset + 1;
      }
      return None;
    }

    /** `auditSecret`: never an error. A secret `validateSecret` refuses gives length 0,
        not strong, and one warning saying whether it was empty or malformed; otherwise
        the length is the decoded length, strong means at least 20 bytes, and a shorter
        secret gets one warning, for zero bytes or for a weak secret. */
    method AuditSecret(secret: string) returns (report: AuditReport)
      ensures ValidateSecret(secret).Err? ==>
                report == AuditReport(0, false, [if secret == "" then AuditEmpty else AuditInvalidBase32])
      ensures ValidateSecret(secret).Ok? ==>
                var n := ValidateSecret(secret).value;
                && report.lengthBytes == n
                && (report.isStrong <==> n >= 20)
                && report.warnings == (if n == 0 then [AuditZeroBytes] else if n < 20 then [AuditWeak(n)] else [])
      ensures report.isStrong <==> report.warnings == []
    {
      var warnings: seq<AuditWarning> := [];
      if secret == "" {
        warnings := warnings + [AuditEmpty];
        return AuditReport(0, false, warnings);
      }
      if |secret| % 8 != 0 || !MatchesSecretPattern(secret) {
        warnings := warnings + [AuditInvalidBase32];
        return AuditReport(0, false, warnings);
      }
      var decoded := Base32.DecodeUpper(secret);
      if decoded.Err? {
        warnings := warnings + [AuditInvalidBase32];
        return AuditReport(0, false, warnings);
      }
      var lengthBytes := |decoded.value|;
      if lengthBytes == 0 {
        warnings := warnings + [AuditZeroBytes];
      } else if lengthBytes < 20 {
        warnings := warnings + [AuditWeak(lengthBytes)];
      }
      return AuditReport(lengthBytes, lengthBytes >= 20, warnings);
    }

    /** `generateUri`: the secret is validated, then the Key URI is written with the
        issuer and the accountLabel percent-encoded and the algorithm name in capitals. */
    function GenerateUri(secret: string, accountLabel: string, issuer: string): (r: Result<string, TotpError>)
      reads this
      requires IsByteString(accountLabel) && IsByteString(issuer)
      ensures r.Err? <==> ValidateSecret(secret).Err?
      ensures r.Err? ==> r.error == ValidateSecret(secret).error
    {
      match ValidateSecret(secret)
      case Err(e) => Err(e)
      case Ok(_) =>
        var encodedLabel := RawUrlEncode(accountLabel);
        var encodedIssuer := RawUrlEncode(issuer);
        var parameters := "secret=" + secret + "&issuer=" + encodedIssuer +
                          "&algorithm=" + StrToUpper(AlgorithmName(algorithm)) +
                          "&digits=" + IntToString(digits) + "&period=" + IntToString(period);
        Ok("otpauth://totp/" + encodedIssuer + ":" + encodedLabel + "?" + parameters)
    }

    /** Reading a generated URI back: after the scheme and type, the text up to the first
        ':' decodes to the issuer, the text up to the next '?' decodes to the accountLabel, and
        the parameters that follow, split at '&', carry the secret, the encoded issuer,
        the algorithm in capitals, the digits and the period. */
    lemma GenerateUriFields(secret: string, accountLabel: string, issuer: string)
      requires IsByteString(accountLabel) && IsByteString(issuer)
      requires GenerateUri(secret, accountLabel, issuer).Ok?
      ensures var uri := GenerateUri(secret, accountLabel, issuer).value;
              && |uri| >= 15 && uri[..15] == "otpauth://totp/"
              && var (issuerField, afterIssuer) := SplitAt(uri[15..], ':');
              && PercentDecode(issuerField) == issuer
              && var (labelField, query) := SplitAt(afterIssuer, '?');
              && PercentDecode(labelField) == accountLabel
              && var (p1, rest1) := SplitAt(query, '&');
              && p1 == "secret=" + secret
              && var (p2, rest2) := SplitAt(rest1, '&');
              && p2 == "issuer=" + RawUrlEncode(issuer)
              && var (p3, rest3) := SplitAt(rest2, '&');
              && p3 == "algorithm=" + StrToUpper(AlgorithmName(algorithm))
              && var (p4, p5) := SplitAt(rest3, '&');
              && p4 == "digits=" + IntToString(digits)
              && p5 == "period=" + IntToString(period)
    {
      var ei, el := RawUrlEncode(issuer), RawUrlEncode(accountLabel);
      var alg := StrToUpper(AlgorithmName(algorithm));
      var d, p := IntToString(digits), IntToString(period);
      var rest3 := "period=" + p;
      var rest2 := "digits=" + d + "&" + rest3;
      var rest1 := "algorithm=" + alg + "&" + rest2;
      var rest0 := "issuer=" + ei + "&" + rest1;
      var query := "secret=" + secret + "&" + rest0;
      QueryLayout(secret, ei, alg, d, p);
      UriLayout(ei, el, query);
      var afterIssuer := el + "?" + query;
      EncodedHasNoDelimiter(issuer);
      EncodedHasNoDelimiter(accountLabel);
      SecretHasNoDelimiter(secret);
      FixedTextsHaveNoDelimiter(algorithm);
      DigitsHaveNoDelimiter(d);
      var uri := GenerateUri(secret, accountLabel, issuer).value;
      SplitAtFirst(uri[15..], ei, ':', afterIssuer);
      SplitAtFirst(afterIssuer, el, '?', query);
      NoDelimiterAppend("secret=", secret);
      SplitAtFirst(query, "secret=" + secret, '&', rest0);
      NoDelimiterAppend("issuer=", ei);
      SplitAtFirst(rest0, "issuer=" + ei, '&', rest1);
      NoDelimiterAppend("algorithm=", alg);
      SplitAtFirst(rest1, "algorithm=" + alg, '&', rest2);
      NoDelimiterAppend("digits=", d);
      SplitAtFirst(rest2, "digits=" + d, '&', rest3);
      RawUrlEncodeRoundTrip(issuer);
      RawUrlEncodeRoundTrip(accountLabel);
    }
  }
}
