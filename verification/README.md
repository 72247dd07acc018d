# totp-php, modelled in Dafny

This project models the core of the PHP library `remotemerge/totp-php`:

- the Base32 codec of RFC 4648 section 6, in its current form (an integer bit buffer, '=' padding) and its legacy form (a string of '0'/'1' digits, no padding);
- the TOTP engine of RFC 6238 on top of the HOTP algorithm of RFC 4226:
  - the configurable engine: `configure`, the getters, `getCode`, `verifyCode`, the replay-safe `verifyCodeOnce`, `auditSecret` and `generateUri`;
  - the legacy engine, fixed to SHA-1, 6 digits and 30-second slices;
- the two message stores that look up dotted keys such as `validation.secret_empty` in a nested array.

Both codecs are proved equal to one reference encoding, `Base32Spec`. It reads the bytes as one bit string, cuts it into 5-bit groups and names each group by its alphabet symbol. The round trip, the layout and the error cases are proved once, about that reference.

The engine's code is the RFC 4226 HOTP value of the decoded secret and the slice. The window searches of `verifyCode` and `verifyCodeOnce` are proved against declarative descriptions: "some slice of the window matches" and "the earliest matching slice after the last accepted one".

The modules:

| file | module | models |
|---|---|---|
| results.dfy | Results | `Option`/`Result` and three sequence facts |
| bits.dfy | Bits | bytes, bit strings, grouping into fixed-width values, big-endian values |
| php_strings.dfy | PhpStrings | the PHP string functions the core calls |
| base32_spec.dfy | Base32Spec | the reference encoding of RFC 4648 section 6 |
| base32.dfy | Base32 | src/Utils/Base32.php |
| legacy_base32.dfy | LegacyBase32 | html/src/Utils/Base32.php |
| totp_core.dfy | TotpCore | the validators, counter packing, truncation and window searches |
| totp.dfy | TotpEngine | src/Totp/Totp.php with src/Totp/AbstractTotp.php, as class `Totp` |
| legacy_totp.dfy | LegacyTotp | html/src/Totp/AbstractTotp.php |
| message_lookup.dfy | MessageLookup | the dotted-key descent shared by both stores |
| message_store.dfy | Message | src/Message/MessageStore.php, as class `MessageStore` |
| translation_store.dfy | Translation | src/Translation/MessageStore.php, as class `MessageStore` |

Some things that are not values are passed in as parameters:

- HMAC is a parameter `hmac` of type `Hmac`: any function that returns 20, 32 or 64 bytes for SHA-1, SHA-256 or SHA-512.
- The current time slice is a parameter (`slice` or `now`).
- The random bytes of a new secret are a parameter (`randomBytes`).
- The array a messages file returns is a parameter (`file`).
- `sprintf` is a parameter (`Formatter`). The only thing assumed about it is that a format without '%' comes back unchanged.

PHP's `preg_match` patterns become predicates. Without the `D` modifier, PCRE's `$` also matches just before a final newline. The model takes that reading: `ABCDEFG\n` passes the secret pattern of src/Totp/AbstractTotp.php:69 and is then refused by the decoder (`TotpCore.NewlineSecretFailsInDecoder`).

In a few places the natural reading of the library's design is stronger than its code. The model follows the code in each case:

- Calling `verifyCodeOnce` again with `lastAccepted` set to the slice just accepted can still accept a later slice of the same window. It returns `null` only when no later slice matches (`TotpCore.NoReplay`).
- `has(key)` answering true does not mean that `get(key)` differs from the fallback text. A store may hold exactly that text (`MessageLookup.StoredTextMayReadAsFallback`). What holds is that `get(key)` then returns the stored text.

## Model

| member | source | states |
|---|---|---|
| Base32.EncodeUpper | src/Utils/Base32.php:48-83 | The buffer loop returns exactly the RFC 4648 text `Base32Spec.Encode(data)`, so every property proved of `Encode` holds of it. Between input bytes the buffer holds fewer than 5 bits, and they are the bits not yet written. |
| Base32.EncodeTail | src/Utils/Base32.php:71-80 | With fewer than 5 bits left, the optional last symbol (zero-filled on the right) plus '=' up to a multiple of 8 completes the encoding of the whole input. |
| Base32.TakeByte | src/Utils/Base32.php:61-62 | Shifting a byte into the buffer appends its 8 bits to the pending bits. The written symbols still name the complete groups. |
| Base32.EmitSymbol | src/Utils/Base32.php:65-68 | `(buffer >> bufferLength) & 0x1F` is the value of the oldest 5 pending bits. Writing its symbol keeps the encoder invariant. |
| Base32.FinishEncoding | src/Utils/Base32.php:72-80 | The written symbols, the optional last symbol and `padLength` '=' make up `Encode(data)`. |
| Base32.DecodeUpper | src/Utils/Base32.php:92-125 | The loop returns exactly `Base32Spec.Decode(data)`: the bytes, or the first character that is not in `DECODE_MAP` once the trailing '=' are removed. Between symbols the buffer holds fewer than 8 bits. |
| Base32.TakeSymbol | src/Utils/Base32.php:114-115 | Shifting in a symbol's value appends its 5 bits to the pending bits. |
| Base32.EmitByte | src/Utils/Base32.php:118-121 | `(buffer >> bufferLength) & 0xFF` is a byte: the value of the oldest 8 pending bits. Writing it keeps the decoder invariant. |
| Base32.FinishDecoding | src/Utils/Base32.php:124 | Once every symbol is read, the bytes written are the decoding of the text. The fewer than 8 leftover bits are dropped. |
| Base32Spec.TrimPadding | src/Utils/Base32.php:99 | `rtrim($s, '=')` gives a prefix of `s`, followed in `s` only by '=', that does not itself end in '='. |
| Base32Spec.AlphabetSymbols | src/Utils/Base32.php:15-25 | `DECODE_MAP` inverts `ENCODE_MAP`: the symbol at position v maps back to v, for all 32 values. |
| Base32Spec.DecodeMapKeys | src/Utils/Base32.php:20-25 | Every key of `DECODE_MAP` is in `[A-Z2-7]`, maps to a value below 32, and is the symbol at that position of `ENCODE_MAP`. |
| Base32Spec.SymbolsAreKeys | src/Utils/Base32.php:20-25 | Every character of `[A-Z2-7]` is a key of `DECODE_MAP`. |
| Base32Spec.SymbolsIndex | src/Utils/Base32.php:67 | The i-th symbol written is `ENCODE_MAP` at the i-th 5-bit value. |
| Base32Spec.EncodeEmpty | src/Utils/Base32.php:50-52 | The empty byte string encodes to the empty text. |
| Base32Spec.DecodeEmpty | src/Utils/Base32.php:94-96 | The empty text decodes to no bytes. |
| Base32Spec.EncodeLayout | src/Utils/Base32.php:60-80 | n bytes give 8·ceil(n/5) characters: ceil(8n/5) symbols, then 0, 6, 4, 3 or 1 '=' for n mod 5 = 0, 1, 2, 3, 4. |
| Base32Spec.TrimmedEncode | src/Utils/Base32.php:60-74 | Without its padding, the text is the symbols of the input bits cut into 5-bit groups, most significant bit first, with the last group filled with zero bits. There are ceil(8n/5) of them. |
| Base32Spec.GroupFillCompletes | src/Utils/Base32.php:72-74 | Fewer than 5 zero bits complete the last group. |
| Base32Spec.EncodeDecodeRoundTrip | src/Utils/Base32.php:48-125 | Decoding the encoding of any byte string gives it back. |
| Base32Spec.DecodeLength | src/Utils/Base32.php:114-124 | m symbols decode to floor(5m/8) bytes. The leftover bits are dropped without an error. |
| Base32Spec.DecodeErr | src/Utils/Base32.php:99-112 | Decoding fails exactly when a character other than a symbol remains after the trailing '=' are removed. The error names the first such character. |
| Base32Spec.SymbolValuesOk | src/Utils/Base32.php:106-115 | Reading the symbols succeeds exactly when every character is in `DECODE_MAP`, and then gives one value below 32 per character. |
| Base32Spec.SymbolValuesErr | src/Utils/Base32.php:106-112 | A failed read names a character outside `DECODE_MAP`, and every character before it is in the map. |
| Base32Spec.SymbolValuesErrExtends | src/Utils/Base32.php:106-112 | Once a prefix has failed, every extension fails on the same character: the loop throws at the first bad character. |
| Base32Spec.PaddingBeforeSymbolRejected | src/Utils/Base32.php:99 | An '=' followed anywhere later by another character survives `rtrim`, so the text is rejected. |
| Base32Spec.DecodeOfTrimmed | src/Utils/Base32.php:99 | Decoding depends only on the text without its trailing '='. |
| Base32Spec.TrimPaddingOfSymbols | src/Utils/Base32.php:99 | Removing the '=' from symbols followed by padding gives back the symbols. |
| Base32Spec.EncodeOfF | src/Utils/Base32.php:48-83 | The test vector of section 10 of RFC 4648: "f" encodes to "MY======". |
| Base32Spec.DecodeOfMY | src/Utils/Base32.php:92-125 | "MY======" decodes to "f". |
| Base32Spec.DecodeOfLoneSymbol | src/Utils/Base32.php:114-124 | "A=======" decodes to no bytes. |
| Base32Spec.DecodeOfBadDigit | src/Utils/Base32.php:106-112 | "JBSWY31P" fails on its '1'. |
| PhpStrings.PadLeft | src/Totp/Totp.php:109 | `str_pad(..., STR_PAD_LEFT)` has length max(length, \|s\|), ends with `s`, and is pad characters before it. |
| PhpStrings.PadRight | html/src/Utils/Base32.php:28 | `str_pad` to the right has length max(length, \|s\|), starts with `s`, and is pad characters after it. |
| PhpStrings.DecBinPadded | html/src/Utils/Base32.php:23 | `str_pad(decbin($v), w, '0', STR_PAD_LEFT)` for v < 2^w is the w-digit binary form of v. `decbin` gives at most w digits. |
| PhpStrings.BindecOfBitChars | html/src/Utils/Base32.php:29 | `bindec` of a string of binary digits is the value they denote. |
| PhpStrings.PadRightBitChars | html/src/Utils/Base32.php:28 | Right-padding binary digits with '0' appends zero bits. |
| PhpStrings.StrSplit | html/src/Utils/Base32.php:27 | The pieces of `str_split($s, $n)` concatenate to `s`. Each has 1 to n characters, and all but the last have exactly n. |
| PhpStrings.StrPos | html/src/Utils/Base32.php:48 | `strpos` finds the first occurrence of the character, or reports that there is none. |
| PhpStrings.IntToStringValue | src/Totp/Totp.php:109 | `(string) $code` is the decimal form of the code, with no more than d digits when the code is below 10^d. |
| PhpStrings.FormatFixedWidth | src/Totp/Totp.php:109 | Left-padding the decimal form of n < 10^d with '0' to d characters gives exactly d digits whose value is n. |
| PhpStrings.RawUrlEncode | src/Totp/Totp.php:257-258 | `rawurlencode` writes only unreserved characters and '%'. |
| PhpStrings.RawUrlEncodeRoundTrip | src/Totp/Totp.php:257-258 | Percent-decoding the encoded text gives back the original byte string. |
| PhpStrings.PercentEncodeCharDecodes | src/Totp/Totp.php:257-258 | One encoded character decodes back to itself, whatever follows it. |
| LegacyBase32.StrictPadRight | html/src/Utils/Base32.php:32 | Under `strict_types=1`, `str_pad` succeeds exactly when the length is an int. It then keeps `s` as its prefix. |
| LegacyBase32.PadAndTrimAsWritten | html/src/Utils/Base32.php:32 | As written, line 32 passes the float `ceil(...) * 8` to `str_pad` and raises a TypeError for every output. |
| LegacyBase32.PadAndTrim | html/src/Utils/Base32.php:32 | With an int length, the '=' padding is added and trimmed again, so a text of symbols comes back unchanged. |
| LegacyBase32.ByteDigitsStep | html/src/Utils/Base32.php:22-24 | Appending a byte's 8 padded binary digits extends the digit string by that byte's bits. |
| LegacyBase32.ChunkLoopStep | html/src/Utils/Base32.php:27-30 | Each 5-digit chunk, right-padded with '0', names the symbol of the next zero-completed 5-bit group. |
| LegacyBase32.ChunkLoopEnd | html/src/Utils/Base32.php:26-30 | After the last chunk, the output is the unpadded RFC 4648 text: ceil(8n/5) symbols. |
| LegacyBase32.EncodeSymbols | html/src/Utils/Base32.php:21-30 | The two loops give `TrimPadding(Encode(data))`, which has ceil(8n/5) symbols. |
| LegacyBase32.EncodeUpperAsWritten | html/src/Utils/Base32.php:19-33 | `encodeUpper` as written always ends in a TypeError. |
| LegacyBase32.EncodeUpper | html/src/Utils/Base32.php:19-33 | With the length passed as an int, the result is the RFC 4648 text without '=': ceil(8n/5) symbols. |
| LegacyBase32.StrPosCharacters | html/src/Utils/Base32.php:48-51 | `strpos(CHARACTERS, $c)` finds exactly the symbols, at their 5-bit value, and nothing for any other character. |
| LegacyBase32.SymbolLoopStep | html/src/Utils/Base32.php:47-53 | A character that `strpos` does not find makes the text undecodable. A found one appends its 5 binary digits. |
| LegacyBase32.ByteLoopStep | html/src/Utils/Base32.php:56-60 | An 8-digit chunk appends the byte it denotes. A shorter last chunk is dropped. |
| LegacyBase32.DecodeLoopsEnd | html/src/Utils/Base32.php:55-62 | After both loops, the output is `Base32Spec.Decode(data)`. |
| LegacyBase32.DecodeUpper | html/src/Utils/Base32.php:42-63 | The result is the bytes `Base32Spec.Decode` gives, or the `InvalidArgumentException` exactly when that decoding fails. |
| LegacyBase32.RoundTrip | html/src/Utils/Base32.php:19-63 | Decoding the unpadded encoding of any byte string gives it back. |
| TotpCore.SymbolsThenPaddingSplit | src/Totp/AbstractTotp.php:69 | `[A-Z2-7]+=*` over the whole text means a split point with one or more symbols before it and only '=' after it. |
| TotpCore.ValidateSecret | src/Totp/AbstractTotp.php:56-80 | The checks run in order: empty, then length not a multiple of 8, then the pattern, each with its own error. Success reports the decoded length. |
| TotpCore.ValidateSecretAccepts | src/Totp/AbstractTotp.php:59-79 | Accepted exactly when the secret is non-empty, its length is a multiple of 8, and it is symbols followed only by '='. The decoded length is floor(5m/8) for m symbols. A short secret is never refused. |
| TotpCore.NewlineSecretFailsInDecoder | src/Totp/AbstractTotp.php:69-74 | A secret ending in "\n" can pass the pattern check. The decoder then refuses it, naming the newline or the first '='. |
| TotpCore.EncodedSecretValidates | src/Totp/AbstractTotp.php:56-80 | Every text the encoder writes for a non-empty input passes `validateSecret`, which reports the input's length. |
| TotpCore.TwentyByteEncoding | src/Totp/Totp.php:85 | Twenty bytes encode to 32 symbols with no padding. |
| TotpCore.ValidateCode | src/Totp/AbstractTotp.php:88-93 | No error exactly when the code is `digits` ASCII digits, or those digits and a final newline. Otherwise the error carries `digits`. |
| TotpCore.NewlineCodeNeverMatches | src/Totp/Totp.php:134 | A code that passes only because of a final newline never equals a generated code. |
| TotpCore.PackTimeSlice | src/Totp/AbstractTotp.php:111-114 | `pack('J', ...)` gives 8 bytes whose big-endian value is the slice modulo 2^64 (two's complement for a negative slice). |
| TotpCore.PackTimeSliceInjective | src/Totp/AbstractTotp.php:111-114 | Two slices pack alike exactly when they agree modulo 2^64. |
| TotpCore.PackTimeSliceExamples | src/Totp/AbstractTotp.php:111-114 | 1234567890 packs to 00 00 00 00 49 96 02 D2, and -1 packs to eight FF bytes. |
| TotpCore.ExtractCodeFromHash | src/Totp/AbstractTotp.php:123-132 | The code is the 31-bit big-endian value of the four bytes at the offset, modulo 10^digits, so it is below 10^digits. |
| TotpCore.Low31Bits | src/Totp/AbstractTotp.php:126-131 | Masking the first byte with 0x7f and or-ing the shifted bytes gives the big-endian value modulo 2^31. |
| TotpCore.ExtractCodeExample | src/Totp/AbstractTotp.php:123-132 | The bytes 01 02 03 04 give 16909060 mod 10^6 = 909060. |
| TotpCore.DynamicOffset | src/Totp/Totp.php:105 | The offset is at most 15, so the 4-byte read stays inside every digest of 20 bytes or more. |
| TotpCore.Code | src/Totp/Totp.php:96-110 | The secret is validated first, and its error is the result. Otherwise the code is exactly `digits` decimal digits. |
| TotpCore.CodeIsHotp | src/Totp/Totp.php:101-109 | The digits of a generated code denote the RFC 4226 HOTP value of the decoded secret and the slice. |
| TotpCore.HotpFromHash | src/Totp/Totp.php:104-107 | The HOTP value is the code extracted at the digest's dynamic offset. |
| TotpCore.FirstMatchUnique | src/Totp/Totp.php:166-178 | The earliest matching slice after `lastAccepted` is determined: two answers meeting the description are equal. |
| TotpCore.NoReplay | src/Totp/Totp.php:155-179 | After slice t is accepted and recorded, the same window accepts only a later slice. It accepts t+1 when that slice matches. |
| TotpCore.FirstMatchWithinWindow | src/Totp/Totp.php:122-179 | The replay-safe search accepts only where the plain window check answers true. When nothing inside the window was accepted before, the two agree. |
| TotpEngine.SupportedAlgorithm | src/Totp/Totp.php:23 | A value is accepted exactly when it is one of the strings "sha1", "sha256", "sha512", and it names that algorithm. |
| TotpEngine.ConfiguredError | src/Totp/Totp.php:20-45 | The error `configure` raises is the first option, in the order algorithm, digits, period, that is set and not acceptable. There is none when every set option is acceptable. |
| TotpEngine.ConfiguredFields | src/Totp/Totp.php:20-45 | Each field becomes the option's value when that option is set, acceptable and reached before any error. An accepted algorithm stays applied when digits or period are refused. An absent or null option changes nothing. |
| TotpEngine.ConfiguredKeepsValid | src/Totp/Totp.php:30-44 | `configure` keeps the digits at 6 or 8 and the period positive. |
| TotpEngine.Totp.constructor | src/Totp/AbstractTotp.php:15-48 | The defaults are sha1, 6 digits and 30 seconds. `maxDiscrepancy` is the `max_discrepancy` option when it is set, and 10 otherwise. |
| TotpEngine.Totp.Configure | src/Totp/Totp.php:20-45 | The fields change exactly as `ConfiguredFields` describes and the error is the one `ConfiguredError` names. `maxDiscrepancy` is untouched and the engine stays valid. |
| TotpEngine.Totp.GetAlgorithm | src/Totp/Totp.php:52-55 | Always a supported name, and the one naming the current algorithm. |
| TotpEngine.Totp.GetDigits | src/Totp/Totp.php:62-65 | 6 or 8 in every valid engine. |
| TotpEngine.Totp.GetPeriod | src/Totp/Totp.php:72-75 | Positive in every valid engine. |
| TotpEngine.Totp.CurrentTimeSlice | src/Totp/AbstractTotp.php:100-103 | The slice of a time is the one whose period contains it. |
| TotpEngine.Totp.GenerateSecret | src/Totp/Totp.php:83-86 | For 20 random bytes: 32 symbols, accepted by `validateSecret` with length 20, decoding back to those bytes. |
| TotpEngine.Totp.GetCode | src/Totp/Totp.php:96-110 | The secret's error, or `digits` decimal digits whose value is the HOTP value of the decoded secret at the slice. |
| TotpEngine.Totp.VerifyCode | src/Totp/Totp.php:122-140 | The discrepancy is checked first, then the secret, then the code. After that, true exactly when some slice within the discrepancy generates the code. |
| TotpEngine.Totp.ScanWindow | src/Totp/Totp.php:133-139 | The loop over offsets -d..d answers whether some slice of the window generates the code. |
| TotpEngine.Totp.VerifyCodeOnce | src/Totp/Totp.php:155-179 | The same checks as `verifyCode`, then the earliest slice of the window after `lastAccepted` that generates the code, or none. |
| TotpEngine.Totp.ScanWindowOnce | src/Totp/Totp.php:166-178 | The loop skips slices up to `lastAccepted` and stops at the first match: the earliest such slice, or none. |
| TotpEngine.Totp.AuditSecret | src/Totp/Totp.php:190-240 | Never an error. A refused secret gives length 0, not strong, and one warning: empty or invalid Base32. Otherwise the length is the decoded length and strong means at least 20 bytes. A shorter secret gets exactly one warning, zero bytes or weak. Strong exactly when there is no warning. |
| TotpEngine.Totp.GenerateUri | src/Totp/Totp.php:252-261 | The secret is validated first, and its error is the result. |
| TotpEngine.Totp.GenerateUriFields | src/Totp/Totp.php:252-261 | The URI reads back field by field. After `otpauth://totp/`, the text before the first ':' decodes to the issuer and the text before the next '?' decodes to the label. The '&'-separated parameters are the secret, the encoded issuer, the upper-case algorithm, the digits and the period. |
| LegacyTotp.CurrentTimeSlice | html/src/Totp/AbstractTotp.php:79-82 | The slice of a time is the one whose 30-second period contains it. |
| LegacyTotp.PackTimeSlice32 | html/src/Totp/AbstractTotp.php:90-93 | 8 bytes: four zero bytes, then the low 32 bits of the slice, big-endian. |
| LegacyTotp.PackTimeSlice32Agrees | html/src/Totp/AbstractTotp.php:90-93 | For a PHP int, the legacy counter equals the 64-bit counter exactly when 0 ≤ slice < 2^32. |
| LegacyTotp.PackTimeSlice32IsWrapped | html/src/Totp/AbstractTotp.php:90-93 | The legacy counter is the 64-bit counter of the slice modulo 2^32. |
| LegacyTotp.Code32 | html/src/Totp/AbstractTotp.php:38-50 | There is no secret validation. The decoder's exception is the only error, and it occurs exactly when decoding fails. Otherwise the code is 6 digits denoting the HOTP value (SHA-1, offset from byte 19) at the slice modulo 2^32. |
| LegacyTotp.Code32Agrees | html/src/Totp/AbstractTotp.php:38-50 | For a valid secret and a slice below 2^32, the legacy code is the current engine's SHA-1, 6-digit code. |
| LegacyTotp.VerifyCode32 | html/src/Totp/AbstractTotp.php:61-72 | A negative discrepancy answers false without decoding. Otherwise a bad secret raises, and a good one answers whether some slice of the window generates exactly the code. |
| LegacyTotp.OwnCodeInWindow | html/src/Totp/AbstractTotp.php:61-72 | A code generated for any slice of the window is accepted. |
| LegacyTotp.WindowAgrees | html/src/Totp/AbstractTotp.php:61-72 | For a valid secret and a window inside 0..2^32-1, the legacy and current (SHA-1, 6 digits) engines accept the same codes. |
| LegacyTotp.GenerateSecretAsWritten | html/src/Totp/AbstractTotp.php:22-29 | As written, `generateSecret` never returns a secret. The TypeError of `encodeUpper` is not an `Exception`, so it escapes the `catch`. |
| LegacyTotp.GenerateSecret | html/src/Totp/AbstractTotp.php:22-29 | Over the corrected encoder: 32 symbols that decode to the 20 random bytes and that `validateSecret` accepts. |
| LegacyTotp.TwentyBytes | html/src/Utils/Base32.php:32 | For 20 bytes the encoder's trimming removes nothing. |
| MessageLookup.Fallback | src/Message/MessageStore.php:73 | The fallback text is "Message not found: " followed by the key. |
| MessageLookup.Explode | src/Message/MessageStore.php:100 | `explode('.', $key)` gives at least one segment, and no segment contains a '.'. |
| MessageLookup.JoinExplode | src/Message/MessageStore.php:100 | Joining the segments with '.' gives the key back. |
| MessageLookup.ExplodeJoin | src/Message/MessageStore.php:100 | Cutting a key made of dot-free segments gives those segments back. |
| MessageLookup.WalkAppend | src/Message/MessageStore.php:103-109 | Descending a path is descending its first part and then the rest from there. A failed descent stays failed. |
| MessageLookup.LookupTwoLevels | src/Message/MessageStore.php:98-112 | The key "a.b" names the string under `b` in the array under `a`, and nothing otherwise. |
| MessageLookup.LookupOfGroup | src/Translation/MessageStore.php:80 | A key naming a nested array, such as "validation", names no message. |
| MessageLookup.LookupEmptyKey | src/Message/MessageStore.php:100-105 | The empty key names a message only when the top level stores a string under "". |
| MessageLookup.LookupBelowText | src/Message/MessageStore.php:104 | Extending a key that names a string by one more segment names nothing. |
| MessageLookup.StoredTextMayReadAsFallback | src/Message/MessageStore.php:68-90 | A store can hold, under a key, exactly that key's fallback text. |
| MessageLookup.Format | src/Message/MessageStore.php:36 | Without parameters the message is returned unchanged, and so is a message without '%'. |
| MessageLookup.FallbackWithParams | src/Translation/MessageStore.php:36 | The fallback text of a key without '%' comes back unchanged even with parameters. |
| Message.MessageStore.constructor | src/Message/MessageStore.php:17 | The cache starts empty. |
| Message.MessageStore.LoadMessages | src/Message/MessageStore.php:54-60 | The file's array is taken only while the cache is empty. A loaded cache is never replaced. |
| Message.MessageStore.TraverseNestedArray | src/Message/MessageStore.php:98-112 | The loop returns the value the descent along the key's segments reaches, or null at the first missing segment or non-array. |
| Message.MessageStore.GetNestedValue | src/Message/MessageStore.php:68-77 | The message the key names, or the fallback text when the descent ends anywhere but on a string. |
| Message.MessageStore.KeyExists | src/Message/MessageStore.php:85-90 | True exactly when the key names a string. |
| Message.MessageStore.Has | src/Message/MessageStore.php:44-49 | Loads the cache once, then answers whether the key names a string in it. |
| Message.MessageStore.Get | src/Message/MessageStore.php:30-37 | Loads the cache once. Without parameters, returns exactly the stored message, or the fallback text when the key names none. With parameters, returns what `sprintf` makes of that text. |
| Translation.MessageStore.constructor | src/Translation/MessageStore.php:17 | The cache starts empty. |
| Translation.MessageStore.LoadMessages | src/Translation/MessageStore.php:54-59 | The file's array is taken only while the cache is empty. |
| Translation.MessageStore.GetNestedValue | src/Translation/MessageStore.php:67-81 | The inline descent gives up with the fallback text at the first missing segment or non-array. It returns the message the key names, or the fallback text for a non-string end. |
| Translation.MessageStore.KeyExists | src/Translation/MessageStore.php:89-103 | True exactly when the key names a string. |
| Translation.MessageStore.Has | src/Translation/MessageStore.php:44-48 | Loads the cache once, then answers whether the key names a string in it. |
| Translation.MessageStore.Get | src/Translation/MessageStore.php:30-37 | Loads the cache once. Without parameters, returns exactly the stored message, or the fallback text when the key names none. With parameters, returns what `sprintf` makes of that text. |

## Left out

- HMAC (`hash_hmac`, RFC 2104 over SHA-1/256/512) is an arbitrary function of the right digest length. The hash functions themselves are not modelled.
- The clock (`time()` and the float division in `getCurrentTimeSlice`). The slice is a parameter. `CurrentTimeSlice` states the slice for an integer Unix time.
- `random_bytes` is a parameter. Its failure, which the legacy engine wraps in a `TotpException`, is not modelled.
- `hash_equals` is plain equality. Its constant-time behaviour cannot be stated here.
- `error_log` for a weak secret is a side effect with no result. `ValidateSecret` reports the decoded length it would log.
- The text of the messages (src/Data/messages.php, the translation file) and the message strings of exceptions. Errors are datatype constructors, one per message key.
- `sprintf`'s directive language. Only its behaviour on formats without '%' is used.
- Message.MessageStore.Get, Translation.MessageStore.Get: the errors of PHP 8's `sprintf` are not modelled. `Formatter` is a total function, but `sprintf` throws a `ValueError` or `ArgumentCountError` for a bad directive or too few parameters. For example, `get('100%', [1])` formats the fallback "Message not found: 100%" and throws. The model states `get` completely only for the path without parameters.
- PHP strings are byte strings, and the model reads a Dafny `string` as one character per byte. Nothing enforces that convention outside `RawUrlEncode` and `GenerateUriFields`, which require `IsByteString`. TotpCore.ValidateSecret, TotpCore.ValidateCode, TotpCore.Code, Base32.DecodeUpper, LegacyBase32.DecodeUpper and MessageLookup.Explode also accept characters of 256 and above, which no PHP string holds. A multi-byte character must be written as its bytes. The PHP "ABCDEFGé" is 9 bytes and fails the length check, while the Dafny literal "ABCDEFGé" has 8 characters and fails the pattern check instead.
- PHP array keys that are numeric strings (PHP turns them into ints) are not distinguished from other keys.
- The lazy static cache is a field of an object. A PHP static is shared by every caller; the model has one store per object.
- PHP's 64-bit integers in the engine are unbounded here. `$currentSlice + $offset` could overflow to a float near `PHP_INT_MAX`, and that is not modelled. The `(int)` cast of `max_discrepancy` is taken as already applied: the constructor receives an int.
- Base32.EncodeUpper, Base32.DecodeUpper: the buffer keeps only its low `bufferLength` bits. PHP's buffer keeps shifting left and wraps at 64 bits, but only those low bits are ever read.
- The PHP 8.2 behaviour of `str_split('')` (no pieces) is assumed by `StrSplit`.
- html/src/Totp/Totp.php, html/src/Totp/TotpFactory.php, the interfaces and public/secret.php are not part of this model. They add wiring and no logic.
- The repository's own vectors "Hello" ↔ "JBSWY3DP" and "Hello!" ↔ "JBSWY3DPEE======" are not restated. The RFC 4648 vector "f" ↔ "MY======" pins the same bit order and padding, and the round trip holds for every input.
- TotpEngine.Totp.GenerateUri: its own contract states only the error path. The layout of the URI is stated by `GenerateUriFields`, for the byte-string label and issuer that `rawurlencode` receives.

## Findings

| source | as written | input that shows it | evidently intended | confidence | as-written member | corrected member |
|---|---|---|---|---|---|---|
| html/src/Utils/Base32.php:32 | `str_pad($output, ceil(strlen($output) / 8) * 8, '=')` passes a float length. The file declares `strict_types=1`, so `str_pad` raises a TypeError. | any input, e.g. the 20 random bytes of `generateSecret` | pad with '=' to a multiple of 8 and trim again, returning the unpadded symbols | high (not executed) | LegacyBase32.EncodeUpperAsWritten | LegacyBase32.EncodeUpper |
| html/src/Totp/AbstractTotp.php:24-28 | The TypeError is an `Error`, not an `Exception`, so the `catch` does not wrap it and `generateSecret` never returns | any 20 random bytes | a 32-symbol secret | high (not executed) | LegacyTotp.GenerateSecretAsWritten | LegacyTotp.GenerateSecret |
