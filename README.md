# BitRoute shortlinks and paste expiry, in Dafny

BitRoute is a paste-sharing service. Each paste is stored under a
seven-character shortlink and may expire a number of minutes after it was
created. This project models the two places where that logic lives:

- **The shortlink generator** (`Base62Encoder`). It takes a random UUID and
  XORs its two 64-bit halves into one Java `long`. It applies `Math.abs`,
  writes the value in base 62 over `0-9A-Za-z`, and keeps the first seven
  characters or left-pads with `'0'` to seven. It tries up to ten such
  candidates against the store's existence check. If all ten are taken, it
  fails with a `ShortlinkGenerationException`.
- **The paste record** (`Paste`). `getExpirationTime` is the creation
  instant plus the expiration length, or null when either field is null.
  `isExpired` says whether the current instant lies strictly after that
  expiration time.

Files:

- `java_long.dfy` (module `JavaLong`): Java `long` as a subset of `int`.
  `^` is defined bit by bit on the two's-complement patterns. `Math.abs`
  wraps, so the most negative long stays negative.
- `base62.dfy` (module `Base62`): the alphabet, and base-62 numerals as
  specification functions (`Digits`, `Decode`). It proves both round trips,
  the length bound, the leading-zero rule and the truncation rule.
- `base62_encoder.dfy` (module `Base62Encoder`): the encoder's four
  operations as methods with their loops. Each is proved against the
  specification functions. Lemmas cover the seven-character candidates.
- `paste.dfy` (module `PasteModel`): the paste record and its two derived
  values. The current instant is a parameter.
- `exceptions.dfy` (module `Exceptions`): the three exception types and
  their messages.
- `wrappers.dfy` (module `Wrappers`): `Option` (a Java null) and `Result`
  (a thrown exception).

Behaviour kept exactly as the code has it:

- **Halves that XOR to -2^63.** `Math.abs` returns a negative number for
  this value. `encodeBase62` then skips its loop and returns `""`, and the
  shortlink is `"0000000"`. The same shortlink comes from equal halves,
  which XOR to 0. The code does not guard against either case. The model
  keeps that behaviour and proves it (`MinLongFoldsToZeros`,
  `SignFlippedHalvesFoldToZeros`, `EqualHalvesFoldToZeros`). The first
  case can happen for a UUID of the shape `randomUUID` produces
  (`VersionFourUuidFoldsToZeros`).
- **Expiration length.** The code accepts any `Integer`, so the model
  allows negative lengths too.
- **Expiry at the boundary.** A paste is not expired at its expiration
  instant itself, because `isAfter` is strict.

## Model

| member | source | states |
|---|---|---|
| JavaLong.Abs | src/main/java/com/moura/bitroute/utils/Base62Encoder.java:37 | Math.abs on a long: for every value except -2^63 the result is non-negative and equals the value or its negation. For -2^63 the result is -2^63 itself. |
| JavaLong.Xor | src/main/java/com/moura/bitroute/utils/Base62Encoder.java:37 | `msb ^ lsb` on two longs: the exclusive or of their 64-bit two's-complement patterns, taken bit by bit. The result is negative exactly when one operand is negative and the other is not (the sign bits differ). |
| JavaLong.XorSignBitOnly | src/main/java/com/moura/bitroute/utils/Base62Encoder.java:37 | a non-negative long XORed with that same long with the sign bit set gives the most negative long, -2^63 |
| JavaLong.XorSelf | src/main/java/com/moura/bitroute/utils/Base62Encoder.java:37 | `a ^ a == 0` for the bitwise XOR of two longs |
| JavaLong.XorZero | src/main/java/com/moura/bitroute/utils/Base62Encoder.java:37 | `a ^ 0 == a`, for negative longs too (their two's-complement pattern survives the round trip) |
| JavaLong.XorSymmetric | src/main/java/com/moura/bitroute/utils/Base62Encoder.java:37 | `a ^ b == b ^ a` |
| Base62.DigitChar | src/main/java/com/moura/bitroute/utils/Base62Encoder.java:14 | the character for each digit value 0..61 is one of `0-9A-Za-z`, and it is '0' exactly for digit 0 |
| Base62.DigitValue | src/main/java/com/moura/bitroute/utils/Base62Encoder.java:14 | every alphabet character has a digit value below 62 whose character is that character (the inverse of DigitChar) |
| Base62.AlphabetAt | src/main/java/com/moura/bitroute/utils/Base62Encoder.java:14 | BASE62_CHARS has 62 characters, and the one at index d is the character of digit d |
| Base62.AlphabetMembership | src/main/java/com/moura/bitroute/utils/Base62Encoder.java:14 | a character occurs in BASE62_CHARS if and only if it is in one of the ranges 0-9, A-Z, a-z |
| Base62.Digits | src/main/java/com/moura/bitroute/utils/Base62Encoder.java:53-56 | the numeral uses only alphabet characters, is empty exactly for 0, and never starts with '0' |
| Base62.DecodeDigits | src/main/java/com/moura/bitroute/utils/Base62Encoder.java:53-56 | reading the numeral of n back gives n (no information is lost by the digit loop) |
| Base62.DigitsDecode | src/main/java/com/moura/bitroute/utils/Base62Encoder.java:53-56 | every base-62 string without a leading '0' is the numeral of its own value (the other direction of the round trip) |
| Base62.DigitsLength | src/main/java/com/moura/bitroute/utils/Base62Encoder.java:41 | the numeral of n has at most k digits if and only if n < 62^k, which decides truncation versus padding |
| Base62.DecodeZerosPrefix | src/main/java/com/moura/bitroute/utils/Base62Encoder.java:61-66 | left-padding with '0' leaves the string base 62 and does not change its value |
| Base62.DecodeZeros | src/main/java/com/moura/bitroute/utils/Base62Encoder.java:61-66 | a string of only '0' reads as 0 |
| Base62.DropDigitsDivides | src/main/java/com/moura/bitroute/utils/Base62Encoder.java:55 | dividing by 62 k times is dividing by 62^k |
| Base62.DigitsPrefix | src/main/java/com/moura/bitroute/utils/Base62Encoder.java:42 | the first m digits of the numeral of n are the numeral of n with its other digits divided away |
| Base62Encoder.Fold | src/main/java/com/moura/bitroute/utils/Base62Encoder.java:37 | the folded value is negative exactly when the halves XOR to -2^63, and is then -2^63. Otherwise it is the XOR or its negation. |
| Base62Encoder.EncodeBase62 | src/main/java/com/moura/bitroute/utils/Base62Encoder.java:46-59 | returns "0" for 0 and "" for a negative number. For a positive number it returns its base-62 numeral (`Digits`), which has no leading '0' and decodes back to the number. |
| Base62Encoder.PadLeft | src/main/java/com/moura/bitroute/utils/Base62Encoder.java:61-66 | the result is as long as the larger of the two lengths. It ends with the input string and everything before that is '0'. |
| Base62Encoder.GenerateFromUuid | src/main/java/com/moura/bitroute/utils/Base62Encoder.java:32-44 | returns the candidate of the UUID, which is always exactly seven characters from the ranges 0-9, A-Z, a-z |
| Base62Encoder.GenerateShortLink | src/main/java/com/moura/bitroute/utils/Base62Encoder.java:20-30 | makes between 1 and 10 attempts, and every earlier candidate was taken. On success it returns the candidate of the last attempt, which is not taken and is seven base-62 characters. It fails, with the exhaustion message, exactly when all ten candidates are taken. |
| Base62Encoder.CandidateInAlphabet | src/main/java/com/moura/bitroute/utils/Base62Encoder.java:54 | every character of every candidate occurs in BASE62_CHARS |
| Base62Encoder.CandidateShape | src/main/java/com/moura/bitroute/utils/Base62Encoder.java:41-43 | every candidate has length 7 and only base-62 characters |
| Base62Encoder.MinLongFoldsToZeros | src/main/java/com/moura/bitroute/utils/Base62Encoder.java:37-43 | halves that XOR to -2^63 stay negative after Math.abs, encode to "", and yield "0000000" |
| Base62Encoder.SignFlippedHalvesFoldToZeros | src/main/java/com/moura/bitroute/utils/Base62Encoder.java:34-37 | for any non-negative high half, a low half equal to it plus the sign bit folds to -2^63, so the shortlink is "0000000" |
| Base62Encoder.VersionFourUuidFoldsToZeros | src/main/java/com/moura/bitroute/utils/Base62Encoder.java:33-37 | a UUID shaped like one randomUUID returns (version 4 in the high half, variant bits 10 in the low half) can get "0000000": halves 0x4000 and 0x8000000000004000 |
| Base62Encoder.EqualHalvesFoldToZeros | src/main/java/com/moura/bitroute/utils/Base62Encoder.java:37-48 | equal halves fold to 0, encode to "0" and also yield "0000000" |
| Base62Encoder.FoldSymmetric | src/main/java/com/moura/bitroute/utils/Base62Encoder.java:37 | swapping the two halves of a UUID does not change the folded value or the shortlink |
| Base62Encoder.SmallValueRoundTrip | src/main/java/com/moura/bitroute/utils/Base62Encoder.java:41-43 | a folded value below 62^7 is exactly the value of its padded shortlink |
| Base62Encoder.LargeValueKeepsLeadingDigits | src/main/java/com/moura/bitroute/utils/Base62Encoder.java:41-42 | a folded value of at least 62^6 has at least seven digits. Its shortlink is its leading seven digits, and their value is the folded value divided by 62^(digits-7). |
| PasteModel.PlusMinutes | src/main/java/com/moura/bitroute/model/Paste.java:36 | LocalDateTime.plusMinutes on a linear time line (nanoseconds since an epoch; calendar fields and the range exception are left out): the result is exactly `minutes` × 60·10^9 ns after `t` |
| PasteModel.PlusMinutesAdds | src/main/java/com/moura/bitroute/model/Paste.java:44 | adding a minutes then b minutes is adding a + b minutes |
| PasteModel.PlusMinutesMonotone | src/main/java/com/moura/bitroute/model/Paste.java:36 | a later creation instant or a longer length never gives an earlier expiration instant |
| PasteModel.ExpirationTime | src/main/java/com/moura/bitroute/model/Paste.java:40-45 | null if and only if the length or the creation instant is null. Otherwise the creation instant plus the length in minutes. |
| PasteModel.IsExpired | src/main/java/com/moura/bitroute/model/Paste.java:32-38 | never expired when a field is null. Otherwise expired if and only if the expiration time exists and `now` is strictly after it. |
| PasteModel.ExpiredIffStrictlyAfter | src/main/java/com/moura/bitroute/model/Paste.java:36-37 | with both fields present: expired if and only if now > createdAt + minutes |
| PasteModel.NotExpiredAtExpirationInstant | src/main/java/com/moura/bitroute/model/Paste.java:37 | at the expiration instant the paste is not expired; one nanosecond later it is |
| PasteModel.ExpiredIsMonotone | src/main/java/com/moura/bitroute/model/Paste.java:36-37 | once expired, a paste stays expired at every later instant |
| PasteModel.NeverExpires | src/main/java/com/moura/bitroute/model/Paste.java:32-45 | a paste without an expiration length never expires and has no expiration time |
| PasteModel.OneHourWindow | src/main/java/com/moura/bitroute/model/Paste.java:36-37 | a 60-minute paste expires at creation + 1 hour: not expired one second before or at the hour, expired one second after |
| Exceptions.Message | src/main/java/com/moura/bitroute/exception/ShortlinkGenerationException.java:5-7 | the shortlink-generation message is the given message. The not-found and expired messages end with the shortlink. |
| Exceptions.MessageIdentifiesPaste | src/main/java/com/moura/bitroute/exception/PasteNotFoundException.java:5-7 | two not-found or expired messages are equal only for the same exception kind and the same shortlink, with PasteExpiredException.java:5-7 as the other kind |

## Left out

- `UUID.randomUUID()` is not modelled as randomness. The UUIDs that would be drawn are an input sequence, and `GenerateShortLink` requires at least ten of them, one per possible attempt.
- `PasteRepository.existsByShortlink` and the database behind it are modelled as a set of taken shortlinks. JPA, transactions and the unique constraint are not modelled.
- Concurrency is not modelled. Two requests racing between the existence check and the insert can both pick the same shortlink, and the model says nothing about that.
- `LocalDateTime` is a nanosecond count on one linear time line, and `LocalDateTime.now()` is the parameter `now`. Calendar fields and the `DateTimeException` of `plusMinutes` for years outside ±999999999 are not modelled.
- The `ShortlinkGenerationException(message, cause)` constructor is not modelled, because nothing in the core uses it.
- The JPA `@Id`, `@Column` and `@Table` annotations, the Lombok and Spring annotations and the column lengths are not modelled. The `shortlink` key and `pastePath` are carried as plain fields, and `pastePath` is unused.
- The exhaustion message is a constant with `MAX_RETRIES` already written as "10". Java's int-to-string concatenation is not modelled.
- The version and variant bits that `randomUUID` fixes in its halves are not constrained. Any pair of longs is an input, which adds inputs and removes none.
- UUID halves are Java longs (integers in the signed 64-bit range), not raw bit-vectors. `^` is defined bit by bit on their unsigned 64-bit patterns.
