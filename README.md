# compose-authenticator OTP core in Dafny

This project models the one-time-password core of the compose-authenticator
app (Kotlin Multiplatform) and proves properties of that model. It covers:

- **Base32 and HOTP/TOTP** (`TOTPGenerator.kt`): the permissive Base32
  decoder, the 8-byte big-endian counter, dynamic truncation as in section 5.3
  of RFC 4226, and the six-digit zero-padded code. It also covers the
  30-second time step of section 4 of RFC 6238 and the countdown to the next
  code.
- **The `otpauth://` parser** (`QRCodeParser.kt`): hand-rolled URI splitting,
  the two-stage percent-decoder (table replacements, then a `%XX` pass through
  a signed byte), query parameters, and label, issuer and default resolution.
- **The hex key codec and secret generation** (`CryptoUtils.kt`,
  `PlatformServices.kt`): `hexStringToByteArray`, `generateRandomSecret`, and
  `KeyGenerator.generateSecureKey`, which fills a byte array and formats it as
  lower-case hex.
- **Key provisioning** (`KSafeKeyService.kt`): get-or-create of the
  encryption key in a key-value store, modelled as a class with a `map` field.
- **The add-account form** (`AddAccountViewModel.kt`): a class whose UI-state
  record each handler replaces. Saving validates the form, encrypts the
  secret and appends one account record.

## Files

| file | module | what it holds |
|---|---|---|
| `kotlin_lang.dfy` | `KotlinLang` | Kotlin standard-library behaviour used by the core: nullable values and exceptions as `Option`/`Result`, `Int`/`Long` ranges with wrap-around, truncating `/` and `%`, `toByte()`, `toString(radix)`, `padStart`, `toIntOrNull(radix)`, `isBlank()`, `split`, `indexOf`, `removePrefix`, `mapNotNull`, `toMap`. |
| `base32.dfy` | `Base32` | The bit-stream specification of decoding and the source's decoding loop, proved equal to it. |
| `totp_generator.dfy` | `TotpGenerator` | `longToByteArray`, truncation, `generateHOTP`, `generateTOTP`, `getRemainingTime`. |
| `qr_code_parser.dfy` | `QrCodeParser` | `parseUri`, `urlDecode` (a method with the table loop), `parseQueryParameters`, `parseOTPAuthUri`, `isValidOTPAuthUri`. |
| `crypto_utils.dfy` | `CryptoUtils` | `hexStringToByteArray`, `generateRandomSecret`. |
| `platform_services.dfy` | `PlatformServices` | `generateSecureKey` (a method filling an array) and its hex formatting. |
| `ksafe_key_service.dfy` | `KeyProvisioning` | The class `KSafeKeyService` over a `map<string, string>` store. |
| `add_account_view_model.dfy` | `AddAccount` | `AddAccountUiState`, `UserAccount` and the class `AddAccountViewModel`. |

## External calls and inputs

These become parameters of the model:

- **HMAC-SHA1** is the parameter `mac`. It maps the key bytes and the message
  to a 20-byte digest, or to `None` when the library throws.
- **AES-GCM `encrypt`** is the parameter `encrypt` of `SaveAccount`. It
  returns the ciphertext or the exception.
- **Randomness** is an input sequence `draws`. It holds the successive
  results of `nextInt(32)` for `generateRandomSecret`, or of
  `Random.nextInt(256)` for `generateSecureKey`.
- **The clock** is the parameter `currentTime`.
- **Failures of the store and the database** are inputs: `putFailure` of the
  key service and `insertFailure` of `saveAccount`. So is the outcome of
  `keyService.getKey()` inside `saveAccount`, which is `key`.

## Behaviour of the code worth knowing

Each point is a fact about the code, and the model follows it.

- **Countdown before the epoch.** `getRemainingTime` is 1..30 only from the
  epoch on. For negative times Kotlin's remainder takes the sign of the
  dividend, so the value is 30..59 (`TotpGenerator.RemainingTimeBeforeEpoch`).
  Before the epoch it also does not say when the code changes:
  at `t = -30` it is 30, but the time step moves from -1 to 0 one second
  later.
- **The countdown's doc comment.** `TOTPGenerator.kt:88` promises 0..29. The
  value is 1..30, and it is 30 exactly at a window boundary.
- **Label decoding.** `QRCodeParser.kt:31-35` splits the raw label on its
  first `:` and then percent-decodes each part. So an encoded `%3A` never
  separates issuer from account.
- **Errors are sentinels.** `generateHOTP` catches every exception and
  returns `"ERROR"` (`TOTPGenerator.kt:63-66`). The parser returns `null`.
  The model returns the same values.
- **Percent-decoding of bytes 0x80-0xFF.** The `%XX` pass turns the byte
  into a `Char` through a signed `Byte` (`QRCodeParser.kt:127-128`). So these
  bytes become U+FF80-U+FFFF, not Latin-1 characters, and multi-byte UTF-8 is
  not reassembled.
- **The key.** The comment at `PlatformServices.kt:14` speaks of a 32-byte
  key. What is stored and returned is its 64-character hex string, and an
  empty stored string counts as missing.

## Model

| member | source | states |
|---|---|---|
| Base32.Base32Decode | composeApp/src/commonMain/kotlin/org/com/composeauthenticator/utils/TOTPGenerator.kt:102-131 | The decoding loop (5 bits per character into a 32-bit `Int` buffer with wrap-around, one byte out whenever 8 bits are pending) returns exactly `Decode`: the cleaned input's 5-bit values packed 8 bits at a time, or failure on a character outside the alphabet; the empty input gives no bytes. |
| Base32.DecodeFailsIff | composeApp/src/commonMain/kotlin/org/com/composeauthenticator/utils/TOTPGenerator.kt:108-119 | Decoding fails exactly when some character that is not `=` or a space has, once upper-cased by the full Unicode mapping, a character outside `A-Z2-7`. |
| Base32.DecodeIgnoresCase | composeApp/src/commonMain/kotlin/org/com/composeauthenticator/utils/TOTPGenerator.kt:108 | Any spelling of a secret decodes like its upper case. |
| Base32.DecodeLongS | composeApp/src/commonMain/kotlin/org/com/composeauthenticator/utils/TOTPGenerator.kt:108 | Upper-casing is the full Unicode mapping, not ASCII only: `ſſ` is cleaned to `SS` and decodes to the one byte 0x94. |
| Base32.DecodeIgnoresPadding | composeApp/src/commonMain/kotlin/org/com/composeauthenticator/utils/TOTPGenerator.kt:108 | An `=` or a space anywhere in the input does not change the result. |
| Base32.CleanBase32 | composeApp/src/commonMain/kotlin/org/com/composeauthenticator/utils/TOTPGenerator.kt:108 | Cleaning leaves a string of alphabet characters unchanged. |
| Base32.DecodeLength | composeApp/src/commonMain/kotlin/org/com/composeauthenticator/utils/TOTPGenerator.kt:115-128 | Every successful decoding has `floor(5n/8)` bytes for `n` cleaned characters: leftover bits short of a byte are dropped. |
| Base32.DecodeBitLayout | composeApp/src/commonMain/kotlin/org/com/composeauthenticator/utils/TOTPGenerator.kt:115-128 | For every byte `i` of a successful decoding and every `k < 8`, bit `k` (from the most significant) of byte `i` is bit `8i+k` of the concatenated 5-bit values of the cleaned characters, which exists; the byte count `floor(5n/8)` is repeated there and stated on its own by `DecodeLength`. |
| Base32.DecodeConcat | composeApp/src/commonMain/kotlin/org/com/composeauthenticator/utils/TOTPGenerator.kt:115-128 | A cleaned prefix whose length is a multiple of 8 decodes independently of what follows: the bytes of the whole are the bytes of the parts concatenated. |
| Base32.DecodeRfc4226Secret | composeApp/src/commonMain/kotlin/org/com/composeauthenticator/utils/TOTPGenerator.kt:102-131 | `GEZDGNBVGY3TQOJQGEZDGNBVGY3TQOJQ` decodes to the ASCII bytes of `12345678901234567890`. |
| TotpGenerator.LongToByteArray | composeApp/src/commonMain/kotlin/org/com/composeauthenticator/utils/TOTPGenerator.kt:72-83 | The counter becomes exactly 8 bytes. |
| TotpGenerator.LongToByteArrayValue | composeApp/src/commonMain/kotlin/org/com/composeauthenticator/utils/TOTPGenerator.kt:72-83 | Read back big-endian, the 8 bytes are the value modulo 2^64, and as a signed 64-bit word they are the value itself. |
| TotpGenerator.LongToByteArrayInjective | composeApp/src/commonMain/kotlin/org/com/composeauthenticator/utils/TOTPGenerator.kt:72-83 | Different `Long` counters give different byte arrays. |
| TotpGenerator.Offset | composeApp/src/commonMain/kotlin/org/com/composeauthenticator/utils/TOTPGenerator.kt:53 | The truncation offset lies in 0..15, so the four bytes it selects are inside the 20-byte digest. |
| TotpGenerator.DynamicTruncation | composeApp/src/commonMain/kotlin/org/com/composeauthenticator/utils/TOTPGenerator.kt:53-59 | The dynamic-truncation value of section 5.3 of RFC 4226 is below 2^31. |
| TotpGenerator.Truncate | composeApp/src/commonMain/kotlin/org/com/composeauthenticator/utils/TOTPGenerator.kt:53-59 | `dynamicTruncation` as written: the 31-bit value at the offset, computed with signed bytes, masks and `or`. It is the operation itself; `TruncateIsDynamicTruncation` and `TruncateUnsigned` state its properties. |
| TotpGenerator.TruncateIsDynamicTruncation | composeApp/src/commonMain/kotlin/org/com/composeauthenticator/utils/TOTPGenerator.kt:53-59 | The source's masks, shifts and `or`s on signed bytes compute the RFC 4226 dynamic truncation of the digest (offset from the low nibble of the last byte, top bit of the first selected byte cleared). |
| TotpGenerator.TruncateUnsigned | composeApp/src/commonMain/kotlin/org/com/composeauthenticator/utils/TOTPGenerator.kt:53-59 | The truncated value is the four selected bytes read big-endian with the top bit of the first one cleared. |
| TotpGenerator.GenerateHotp | composeApp/src/commonMain/kotlin/org/com/composeauthenticator/utils/TOTPGenerator.kt:44-67 | `generateHOTP` as written: decode, HMAC the big-endian counter, truncate, reduce modulo 10^6 and pad to six digits, any failure giving `"ERROR"`. It is the operation itself; `HotpCode` and `HotpError` state its properties. |
| TotpGenerator.HotpCode | composeApp/src/commonMain/kotlin/org/com/composeauthenticator/utils/TOTPGenerator.kt:44-62 | When the secret decodes and the HMAC succeeds, the code is exactly 6 ASCII digits whose value is the truncated digest modulo 10^6, zero-padded on the left. |
| TotpGenerator.HotpError | composeApp/src/commonMain/kotlin/org/com/composeauthenticator/utils/TOTPGenerator.kt:44-67 | `generateHOTP` returns `ERROR` exactly when Base32 decoding or the HMAC call fails. |
| TotpGenerator.TimeStep | composeApp/src/commonMain/kotlin/org/com/composeauthenticator/utils/TOTPGenerator.kt:33 | The time step of any `Long` time is itself a `Long`: Kotlin's division by 30, rounding toward zero. |
| TotpGenerator.TimeStepWindow | composeApp/src/commonMain/kotlin/org/com/composeauthenticator/utils/TOTPGenerator.kt:33 | For times from the epoch on, the step is `t / 30` and `t` lies within its 30-second window. |
| TotpGenerator.TimeStepAroundEpoch | composeApp/src/commonMain/kotlin/org/com/composeauthenticator/utils/TOTPGenerator.kt:33 | Rounding toward zero puts every time within 30 s of the epoch, before or after it, in step 0. |
| TotpGenerator.GenerateTotp | composeApp/src/commonMain/kotlin/org/com/composeauthenticator/utils/TOTPGenerator.kt:32-35 | `generateTOTP` as written: the HOTP code of the current time step. It is the operation itself; `TotpSameWindow` and `TotpValidForRemainingTime` state its properties. |
| TotpGenerator.TotpSameWindow | composeApp/src/commonMain/kotlin/org/com/composeauthenticator/utils/TOTPGenerator.kt:32-35 | Two non-negative times in the same 30-second window give the same TOTP code. |
| TotpGenerator.RemainingTime | composeApp/src/commonMain/kotlin/org/com/composeauthenticator/utils/TOTPGenerator.kt:91-93 | `getRemainingTime` as written, with Kotlin's truncating remainder. It is the operation itself; `RemainingTimeRange`, `RemainingTimeBeforeEpoch` and `StepAfter` state its properties. |
| TotpGenerator.RemainingTimeRange | composeApp/src/commonMain/kotlin/org/com/composeauthenticator/utils/TOTPGenerator.kt:91-93 | For `t >= 0` the remaining time lies in 1..30 (not the 0..29 of the doc comment), is 30 exactly at a window boundary, and `t` plus it is the start of the next window. |
| TotpGenerator.RemainingTimeBeforeEpoch | composeApp/src/commonMain/kotlin/org/com/composeauthenticator/utils/TOTPGenerator.kt:91-93 | For negative times Kotlin's remainder makes the remaining time 30..59, and 30 exactly at a multiple of 30. |
| TotpGenerator.StepAfter | composeApp/src/commonMain/kotlin/org/com/composeauthenticator/utils/TOTPGenerator.kt:91-93 | From the epoch on, waiting less than the remaining time keeps the time step, and waiting exactly that long moves to the next step. |
| TotpGenerator.TotpValidForRemainingTime | composeApp/src/commonMain/kotlin/org/com/composeauthenticator/utils/TOTPGenerator.kt:32-35 | From the epoch on, the code stays the same while less than the remaining time has passed, and the counter advances by one once exactly that time has passed. |
| QrCodeParser.ParseUri | composeApp/src/commonMain/kotlin/org/com/composeauthenticator/utils/QRCodeParser.kt:61-77 | `parseUri` as written: scheme up to the first `://`, query after the first `?` that follows, host up to the first `/` before it, path the rest. It is the operation itself; `ParseUriWithoutSeparator` and `ParseUriReassembles` state its properties. |
| QrCodeParser.ParseUriWithoutSeparator | composeApp/src/commonMain/kotlin/org/com/composeauthenticator/utils/QRCodeParser.kt:61-63 | A string with no `://` parses to four null parts. |
| QrCodeParser.ParseUriReassembles | composeApp/src/commonMain/kotlin/org/com/composeauthenticator/utils/QRCodeParser.kt:61-77 | With a `://`, scheme and host are present and `scheme + "://" + host + path + "?" + query` gives the URI back; the scheme has no `://`, the host has no `/` or `?`, and a path starts with `/` and has no `?`. |
| QrCodeParser.UrlDecode | composeApp/src/commonMain/kotlin/org/com/composeauthenticator/utils/QRCodeParser.kt:79-131 | The decoding method (the table replacements in listed order in a loop, then the `%XX` pass) returns `UrlDecoded` of its input. |
| QrCodeParser.TableAgreesWithHexPass | composeApp/src/commonMain/kotlin/org/com/composeauthenticator/utils/QRCodeParser.kt:83-129 | Every table entry is a `%` followed by two hex digits, and its replacement is the character the `%XX` pass would give those digits. |
| QrCodeParser.ByteCharValue | composeApp/src/commonMain/kotlin/org/com/composeauthenticator/utils/QRCodeParser.kt:127-128 | Through the signed byte, `%00`-`%7F` become the characters 0-127 and `%80`-`%FF` become U+FF80-U+FFFF. |
| QrCodeParser.HexPassSignExtends | composeApp/src/commonMain/kotlin/org/com/composeauthenticator/utils/QRCodeParser.kt:124-129 | `%C3` becomes the single character U+FFC3, not the byte 0xC3. |
| QrCodeParser.UrlDecodedNoPercent | composeApp/src/commonMain/kotlin/org/com/composeauthenticator/utils/QRCodeParser.kt:79-131 | A string without `%` is returned unchanged. |
| QrCodeParser.HexPassReplacePlain | composeApp/src/commonMain/kotlin/org/com/composeauthenticator/utils/QRCodeParser.kt:119-129 | For every input, replacing any one table entry other than `%25` leaves the result of the `%XX` pass unchanged: it decodes only escapes that pass would decode to the same character, and it creates or removes none. |
| QrCodeParser.UrlDecodedIsHexPass | composeApp/src/commonMain/kotlin/org/com/composeauthenticator/utils/QRCodeParser.kt:79-131 | For every input without `%25`, decoding equals the single `%XX` pass: the table changes nothing that pass would not do anyway. |
| QrCodeParser.UrlDecodedCascade | composeApp/src/commonMain/kotlin/org/com/composeauthenticator/utils/QRCodeParser.kt:79-131 | For every input, the table's only effect on the result is its `%25` entry: the entries before it leave the `%XX` pass's output unchanged, and the entries after it change nothing. So only `%25` can create a new escape for a later step. |
| QrCodeParser.UrlDecodeDoubleEscape | composeApp/src/commonMain/kotlin/org/com/composeauthenticator/utils/QRCodeParser.kt:119-129 | `%2541` decodes to `A`: the table turns `%25` into `%`, and the hex pass then reads `%41`. |
| QrCodeParser.UrlDecodeIgnoresCase | composeApp/src/commonMain/kotlin/org/com/composeauthenticator/utils/QRCodeParser.kt:119-121 | Table entries match case-insensitively: `%3a` decodes to `:`. |
| QrCodeParser.ParseQueryParameters | composeApp/src/commonMain/kotlin/org/com/composeauthenticator/utils/QRCodeParser.kt:134-143 | `parseQueryParameters` as written: split on `&`, decode the pairs, later pairs overwriting earlier ones. It is the operation itself; `QueryPair`, `ParseQueryParametersKeys` and `ParseQueryParametersLastWins` state its properties. |
| QrCodeParser.QueryPair | composeApp/src/commonMain/kotlin/org/com/composeauthenticator/utils/QRCodeParser.kt:136-141 | A query piece yields a pair exactly when it contains `=`; it splits at the first `=` and decodes both halves. |
| QrCodeParser.ParseQueryParametersKeys | composeApp/src/commonMain/kotlin/org/com/composeauthenticator/utils/QRCodeParser.kt:134-143 | A key is in the parameter map exactly when some `&`-separated piece contains `=` and decodes to that key before its first `=`. |
| QrCodeParser.ParseQueryParametersLastWins | composeApp/src/commonMain/kotlin/org/com/composeauthenticator/utils/QRCodeParser.kt:134-143 | For a repeated key the value of the last piece giving that key is the one kept. |
| QrCodeParser.ParseOtpAuthUri | composeApp/src/commonMain/kotlin/org/com/composeauthenticator/utils/QRCodeParser.kt:14-52 | `parseOTPAuthUri` as written: scheme and host checks, a required `secret`, the label split into issuer and account, defaults for the rest. It is the operation itself; `IsValidOtpAuthUri`, `ParseWithoutSeparator`, `ParsedParameters`, `IssuerPrecedence`, `LabelWithColon`, `LabelWithoutColon` and `NoPathNoAccount` state its properties. |
| QrCodeParser.IsValidOtpAuthUri | composeApp/src/commonMain/kotlin/org/com/composeauthenticator/utils/QRCodeParser.kt:145-147 | A URI is accepted exactly when its scheme is `otpauth`, its host `totp`, and its query has a `secret`. |
| QrCodeParser.ParseWithoutSeparator | composeApp/src/commonMain/kotlin/org/com/composeauthenticator/utils/QRCodeParser.kt:18-20 | A string without `://` is rejected. |
| QrCodeParser.ParsedParameters | composeApp/src/commonMain/kotlin/org/com/composeauthenticator/utils/QRCodeParser.kt:25-28 | The secret is the decoded query value, with no alphabet check; `algorithm` defaults to `SHA1`; a missing or non-integer `digits` or `period` falls back to 6 or 30 instead of failing. |
| QrCodeParser.IssuerPrecedence | composeApp/src/commonMain/kotlin/org/com/composeauthenticator/utils/QRCodeParser.kt:39 | A query `issuer` takes precedence over the label's; without one the label's issuer (or null) is used. |
| QrCodeParser.LabelWithColon | composeApp/src/commonMain/kotlin/org/com/composeauthenticator/utils/QRCodeParser.kt:31-33 | A label `issuer:account` (first `:`) gives the decoded account and, without a query issuer, the decoded issuer. |
| QrCodeParser.LabelWithoutColon | composeApp/src/commonMain/kotlin/org/com/composeauthenticator/utils/QRCodeParser.kt:34-35 | A label without a literal `:` (an encoded `%3A` does not count) gives no path issuer and the decoded label as the account. |
| QrCodeParser.NoPathNoAccount | composeApp/src/commonMain/kotlin/org/com/composeauthenticator/utils/QRCodeParser.kt:22 | Without a path the account name is null. |
| CryptoUtils.HexStringToByteArray | composeApp/src/commonMain/kotlin/org/com/composeauthenticator/utils/CryptoUtils.kt:40-47 | `hexStringToByteArray` as written: spaces removed, an even length required, every pair read as a signed radix-16 number and kept as its low byte. It is the operation itself; `ParseChunksMeaning`, `HexStringOddLength`, `HexStringSucceedsIff`, `HexStringBytes`, `HexStringOfPairs`, `HexStringIgnoresSpaces` and `HexStringAcceptsSign` state its properties. |
| CryptoUtils.ParseChunksMeaning | composeApp/src/commonMain/kotlin/org/com/composeauthenticator/utils/CryptoUtils.kt:44-46 | The pairs convert exactly when each one parses in radix 16, byte `i` being the low byte of pair `i`; otherwise the failure names the first pair that does not parse. |
| CryptoUtils.HexStringOddLength | composeApp/src/commonMain/kotlin/org/com/composeauthenticator/utils/CryptoUtils.kt:41-42 | An odd number of non-space characters is the `require` failure, and no other input is. |
| CryptoUtils.HexStringSucceedsIff | composeApp/src/commonMain/kotlin/org/com/composeauthenticator/utils/CryptoUtils.kt:40-47 | Decoding succeeds exactly when the space-free length is even and every pair parses in radix 16. |
| CryptoUtils.HexStringBytes | composeApp/src/commonMain/kotlin/org/com/composeauthenticator/utils/CryptoUtils.kt:44-46 | On success there are half as many bytes as space-free characters, and byte `i` is the low byte of the value of characters `2i` and `2i+1`. |
| CryptoUtils.HexStringOfPairs | composeApp/src/commonMain/kotlin/org/com/composeauthenticator/utils/CryptoUtils.kt:40-47 | A space-free string whose pairs spell given values decodes to their low bytes. |
| CryptoUtils.HexStringIgnoresSpaces | composeApp/src/commonMain/kotlin/org/com/composeauthenticator/utils/CryptoUtils.kt:41 | A space anywhere in the input is ignored. |
| CryptoUtils.HexStringAcceptsSign | composeApp/src/commonMain/kotlin/org/com/composeauthenticator/utils/CryptoUtils.kt:45 | `toInt(16)` accepts a sign, so `-1` decodes to the byte 0xFF. |
| CryptoUtils.GenerateRandomSecret | composeApp/src/commonMain/kotlin/org/com/composeauthenticator/utils/CryptoUtils.kt:49-54 | `generateRandomSecret` as written: 32 characters of the alphabet, the `i`-th picked by the `i`-th random draw. It is the operation itself; `CharactersAreBase32` and `RandomSecretDecodes` state its properties. |
| CryptoUtils.CharactersAreBase32 | composeApp/src/commonMain/kotlin/org/com/composeauthenticator/utils/CryptoUtils.kt:50 | The secret characters are the Base32 alphabet the decoder uses. |
| CryptoUtils.RandomSecretDecodes | composeApp/src/commonMain/kotlin/org/com/composeauthenticator/utils/CryptoUtils.kt:49-54 | A generated secret has 32 alphabet characters that spell the draws back; Base32 decoding accepts it unchanged and yields the 160 drawn bits as 20 bytes. |
| PlatformServices.GenerateSecureKey | composeApp/src/commonMain/kotlin/org/com/composeauthenticator/platform/PlatformServices.kt:13-25 | The key filled in through the array is the hex form of the 32 drawn bytes: 64 lower-case hex digits, and `hexStringToByteArray` of it is exactly the draws. |
| PlatformServices.SecureKeyOfDraws | composeApp/src/commonMain/kotlin/org/com/composeauthenticator/platform/PlatformServices.kt:15-24 | For any draws in 0..255, the formatted key has two lower-case hex digits per draw and decodes back to the draws. |
| PlatformServices.HexByteDigits | composeApp/src/commonMain/kotlin/org/com/composeauthenticator/platform/PlatformServices.kt:22-23 | One byte is two lower-case hex digits, the high nibble then the low one, zero-padded. |
| PlatformServices.HexFormatLayout | composeApp/src/commonMain/kotlin/org/com/composeauthenticator/platform/PlatformServices.kt:21-24 | The output has two characters per byte, and byte `i` is at characters `2i` and `2i+1`. |
| PlatformServices.HexFormatDigits | composeApp/src/commonMain/kotlin/org/com/composeauthenticator/platform/PlatformServices.kt:21-24 | Every character is a lower-case hex digit, and characters `2i` and `2i+1` are the high and low nibble of byte `i`. |
| PlatformServices.HexPairValue | composeApp/src/commonMain/kotlin/org/com/composeauthenticator/platform/PlatformServices.kt:22-23 | Reading one formatted byte back in radix 16 gives its unsigned value. |
| PlatformServices.HexFormatRoundTrip | composeApp/src/commonMain/kotlin/org/com/composeauthenticator/platform/PlatformServices.kt:21-24 | `hexStringToByteArray` of the formatted bytes succeeds and yields their unsigned values. |
| KeyProvisioning.FreshKeyIsKey | composeApp/src/commonMain/kotlin/org/com/composeauthenticator/platform/KSafeKeyService.kt:34-41 | A freshly generated key is 64 characters long, so it is never the empty string `getKey` treats as missing, and it decodes back to its draws. |
| KeyProvisioning.KSafeKeyService.GenerateAndStoreKey | composeApp/src/commonMain/kotlin/org/com/composeauthenticator/platform/KSafeKeyService.kt:34-42 | A fresh key is written under the alias and returned; when `putDirect` throws, the exception propagates and the store is unchanged; no other entry is written. |
| KeyProvisioning.KSafeKeyService.GetKey | composeApp/src/commonMain/kotlin/org/com/composeauthenticator/platform/KSafeKeyService.kt:13-22 | A non-empty stored key is returned and nothing is written; an empty or missing one is replaced by a fresh key, which is returned; after success the alias holds exactly the returned non-empty key, so a second call returns it unchanged; only the alias is ever written. |
| KeyProvisioning.KSafeKeyService.GenerateKey | composeApp/src/commonMain/kotlin/org/com/composeauthenticator/platform/KSafeKeyService.kt:24-32 | The stored key is always replaced and `Key generated successfully` returned, or null with the store unchanged when storing throws. |
| AddAccount.NewAccount | composeApp/src/commonMain/kotlin/org/com/composeauthenticator/presentation/viewmodel/AddAccountViewModel.kt:107-113 | The record has the form's name, the issuer or null exactly when the issuer is blank, the encrypted secret as key, image 0 and no code. |
| AddAccount.ErrorMessage | composeApp/src/commonMain/kotlin/org/com/composeauthenticator/presentation/viewmodel/AddAccountViewModel.kt:122 | The error shown is the exception's message, or `Failed to save account` when it has none. |
| AddAccount.AddAccountViewModel.HandleQrCodeResult | composeApp/src/commonMain/kotlin/org/com/composeauthenticator/presentation/viewmodel/AddAccountViewModel.kt:57-73 | A parsable URI sets the name and issuer (`""` when absent) and the secret, stops scanning and clears the error; otherwise the error is `Invalid QR code format`, scanning stops and the form is kept. The error is cleared exactly when the URI is valid, and the secret is then the URI's `secret` parameter. |
| AddAccount.AddAccountViewModel.UpdateAccountName | composeApp/src/commonMain/kotlin/org/com/composeauthenticator/presentation/viewmodel/AddAccountViewModel.kt:75-77 | Only the account name changes. |
| AddAccount.AddAccountViewModel.UpdateIssuer | composeApp/src/commonMain/kotlin/org/com/composeauthenticator/presentation/viewmodel/AddAccountViewModel.kt:79-81 | Only the issuer changes. |
| AddAccount.AddAccountViewModel.UpdateSecret | composeApp/src/commonMain/kotlin/org/com/composeauthenticator/presentation/viewmodel/AddAccountViewModel.kt:83-85 | Only the secret changes. |
| AddAccount.AddAccountViewModel.ToggleManualEntry | composeApp/src/commonMain/kotlin/org/com/composeauthenticator/presentation/viewmodel/AddAccountViewModel.kt:87-92 | Manual entry is negated and the error cleared, nothing else changes; toggling twice therefore restores the flag. |
| AddAccount.AddAccountViewModel.SaveAccount | composeApp/src/commonMain/kotlin/org/com/composeauthenticator/presentation/viewmodel/AddAccountViewModel.kt:94-127 | A blank name or secret only sets `Account name and secret are required` and inserts nothing. Otherwise, when the key, the encryption and the insert succeed, exactly one record (`NewAccount`) is appended and the form is reset to its defaults; when one of them throws, nothing is inserted and the error is set with loading off. Earlier records are untouched, every new record is a well-formed saved account, and no outcome leaves the form loading. |
| AddAccount.AddAccountViewModel.ClearError | composeApp/src/commonMain/kotlin/org/com/composeauthenticator/presentation/viewmodel/AddAccountViewModel.kt:129-131 | Only the error changes, to null. |

## Left out

- **HMAC-SHA1 and AES-GCM** (`TOTPGenerator.kt:22-23, 49-50`;
  `CryptoUtils.kt:14-38`) are calls into a cryptography library whose
  internals are not visible. They are parameters, and `encrypt`/`decrypt`
  are not modelled. So no end-to-end RFC 4226 code vectors and no GCM
  round trip are proved.
- **Concrete URI example.** No lemma evaluates the parser on one complete
  example URI. The parser's behaviour is stated for all inputs instead.
- **The `KeyService` interface** (`PlatformServices.kt:6-9`) has no behaviour
  of its own. `KSafeKeyService` is its implementation here, and a
  `CharArray` result is the same character sequence as the string.
- **Camera permission and QR-scanner results.** These are
  `AddAccountViewModel.kt:37-53`, `QRCodeResult` and
  `CameraPermissionService`. They are platform services, so the model's view
  model starts with `hasPermission` false and never changes it.
- **Coroutine scheduling.** `viewModelScope.launch` is not modelled, and
  neither is the `suspend` nature of the calls. Every handler runs to
  completion before the next starts, so the intermediate `isLoading = true`
  state of `saveAccount` is never observed from outside.
- **Logging.** `Logger.e` and `printStackTrace` have no effect on the state.
- **The repository.** It is the sequence of records passed to
  `insertUserAccount`. Room's replace-on-conflict over the `sharedKey`
  primary key, and the other DAO queries, are not modelled.
- **The KSafe store.** It is reduced to `getDirect` and `putDirect` on a map.
  A `putDirect` that throws is assumed to leave the store unchanged.
- **Kotlin strings.** Kotlin strings are sequences of UTF-16 code units,
  while Dafny strings here are sequences of Unicode scalar values. A
  character outside the Basic Multilingual Plane is one character here and
  two code units in Kotlin. So `CryptoUtils.HexStringOddLength` counts scalar
  values where `require(length % 2 == 0)` (`CryptoUtils.kt:42`) counts code
  units. For `"a😀"` Kotlin sees length 3 and fails the `require`, while the
  model sees 2 characters and reports `NotHex`. Both reject the input, but
  with different errors. The other modelled operations give such a
  character no meaning, so they behave the same whichever way it is
  counted.
- **Case folding.** `String.uppercase()` is modelled as Unicode's full
  case mapping only for the characters whose upper case consists of ASCII
  letters: `a-z`, dotless `ı`, long `ſ`, `ß` (`SS`) and the ligatures
  U+FB00-U+FB06 (`FF`, `FI`, `FL`, `FFI`, `FFL`, `ST`, `ST`). Every other
  character is kept as it is. Its real upper case is not ASCII, so it lies
  outside the Base32 alphabet either way, and decoding fails in the source
  and in the model alike. `equals(ignoreCase = true)` compares upper cases.
  Kotlin also accepts equal lower cases of the upper cases (the Kelvin sign
  and `k`). No such pair involves a hex digit, so the percent-decoding table
  matches exactly as in the source.
- **Digit parsing.** `toIntOrNull`, `toInt(16)` and `toString(radix)` are
  modelled on ASCII digits and letters. On the JVM, `Character.digit`
  also accepts non-ASCII decimal digits, such as Arabic-Indic ones, and the
  fullwidth letters `Ａ`–`Ｆ` and `ａ`–`ｆ`. The model rejects these, so for a
  stored key or a QR parameter containing them it fails where the source
  parses. The `%XX` regular expression accepts ASCII only, as modelled.
- **The `%XX` regular expression.** `Regex.replace` is modelled as a
  left-to-right scan that replaces non-overlapping matches, which is how the
  regex engine proceeds for this fixed-width pattern.
- **The `catch` of `parseOTPAuthUri`** (`QRCodeParser.kt:49-51`) is never
  taken: nothing in the modelled body throws. In particular, `toIntOrNull`
  and `removePrefix` do not throw, and the label split always yields two
  parts.
- TotpGenerator.TotpSameWindow: stated for non-negative times with `t / 30`.
  For negative times, two times give the same code whenever their
  truncating quotients by 30 agree, because `GenerateTotp` depends on the
  time only through `TimeStep`. No separate lemma states that.
