# Infinispan `Util` helpers and the Hot Rod `ping` operation, in Dafny

This project models two small cores of Infinispan.

**The string and array helpers of `org.infinispan.util.Util`:**
- `toHexString`, both overloads: the hex encoder that works two characters per byte.
- `printArray`: the `ByteArray{size=…, hashCode=…, array=0x…..}` framing used in logs.
- `formatString`: `{0}`, `{1}`, … placeholder substitution.
- `safeEquals`: null-safe equality.

**`PingOperation.execute` of the Hot Rod client:** one header round trip on a transport. It writes the request header, flushes, then reads and validates the response header. The outcome is classified as `SUCCESS` or `CACHE_DOES_NOT_EXIST`, or an exception is thrown.

Java semantics are written out explicitly:
- `int` arithmetic wraps at 32 bits (`JavaText.Wrap32`).
- A `byte` is sign-extended before `>>` and `&`.
- A `short` status is sign-extended before `Integer.toHexString`.
- `null` is `Option.None`.
- `String.valueOf(null)` and `StringBuilder.append((String) null)` give the text `null`.
- `String.contains` is `indexOf(…) > -1`.

The module layout:

| file | module | what it holds |
|---|---|---|
| `wrappers.dfy` | `Wrappers` | `Option`, standing for nullable references |
| `java_text.dfy` | `JavaText` | Java `int`/`short`, `Integer.toString`/`toHexString` as numerals with their parser, `indexOf`/`contains` |
| `util.dfy` | `Util` | the `Util` helpers, plus the loop of `toHexString` as a method |
| `dump_reader.dfy` | `DumpReader` | inverses used as partners: a hex decoder and a `printArray` frame reader |
| `ping.dfy` | `Ping` | `PingOperation`, its constructors, `execute` and `PingResult` |

**Quirks the proofs pin down:**
- `toHexString` computes its buffer size `min(length, limit) * 2` in `int` arithmetic. As a result:
  - A limit between -2^30 and -1 throws `NegativeArraySizeException`.
  - So does printing 2^30 bytes or more.
  - A limit below -2^30 returns a string of `'\0'` characters of length `2*limit + 2^32`.
- The one-argument `toHexString(null)` throws `NullPointerException`, because `input.length` is read before the call. The two-argument form returns `null` for a `null` or empty array.
- An empty array prints as `array=0xnull..` (or `0xnull` in debug mode).
- `formatString` replaces only the first occurrence of each placeholder, in ascending index order. A parameter text that spells a later placeholder can itself be replaced, when it is the first occurrence of that placeholder and that index is reached: `{0}` with `{1}`, `x` gives `x`, but `{1}{0}` with the same parameters gives `x{1}`, and a parameter `{5}` stays when fewer than six parameters are passed.
- A `HotRodClientException` with a `null` message makes the catch clause of `execute` throw `NullPointerException`.

Constants that `PingOperation` takes from `HotRodConstants` and `HotRodOperation` (not part of this model) are fixed to their Hot Rod protocol values:
- `PING_REQUEST = 0x17`
- `NO_ERROR_STATUS = 0x00`
- `DEFAULT_CACHE_NAME_BYTES` = the empty array

## Model

| member | source | states |
|---|---|---|
| Util.SafeEquals | core/src/main/java/org/infinispan/util/Util.java:106-108 | equal references (both `null` included) are equal; `null` is never equal to a non-null value; otherwise the answer is exactly `a.equals(b)` |
| Util.SafeEqualsIsEquivalence | core/src/main/java/org/infinispan/util/Util.java:99-108 | if `equals` honours the `Object.equals` contract, `safeEquals` is reflexive, symmetric and transitive, and relates `null` only to `null` |
| Util.Placeholder | core/src/main/java/org/infinispan/util/Util.java:243 | the placeholder of parameter `i` is `{`, then the decimal digits of `i` with no leading zero (as Java prints an `int`), which read back as `i`, then `}` |
| Util.PlaceholdersDiffer | core/src/main/java/org/infinispan/util/Util.java:242-246 | placeholders of different parameter indices are different texts, so each iteration searches for its own index |
| Util.ReplaceFirst | core/src/main/java/org/infinispan/util/Util.java:245-246 | with no occurrence the value is unchanged; otherwise exactly the first occurrence is replaced by the parameter text and the text around it is kept |
| Util.FormatString | core/src/main/java/org/infinispan/util/Util.java:238-239 | with no parameters the result is `String.valueOf(message)` (`null` for a null message) |
| Util.FormatStringAscending | core/src/main/java/org/infinispan/util/Util.java:242-248 | formatting with one more parameter is formatting with the others, then replacing the first placeholder of the new index in that result: substitution goes in ascending order, first occurrence only |
| Util.FormatStringWithoutBraces | core/src/main/java/org/infinispan/util/Util.java:238-250 | a message without `{` comes back unchanged, whatever the parameters |
| Util.FormatStringCascades | core/src/main/java/org/infinispan/util/Util.java:242-248 | formatting `{0}` with parameters `{1}` and `x` gives `x`: text inserted by an earlier substitution is matched by a later one |
| Util.FormatStringFirstOccurrenceWins | core/src/main/java/org/infinispan/util/Util.java:242-248 | formatting `{1}{0}` with parameters `{1}` and `x` gives `x{1}`: each step replaces the first occurrence, so the message's own `{1}` is replaced and the inserted one survives |
| JavaText.IndexOf | core/src/main/java/org/infinispan/util/Util.java:245 | `indexOf` gives the first position where the pattern occurs, or -1 when it occurs nowhere |
| Util.Signed | core/src/main/java/org/infinispan/util/Util.java:292-293 | a byte read by Java lies in -128..127 and has the byte's bit pattern |
| Util.HighNibble | core/src/main/java/org/infinispan/util/Util.java:292 | `(b >> 4) & 0x0F` on the sign-extended byte is the high nibble of the byte's bit pattern |
| Util.LowNibble | core/src/main/java/org/infinispan/util/Util.java:293 | `b & 0x0F` on the sign-extended byte is the low nibble |
| Util.HexPair | core/src/main/java/org/infinispan/util/Util.java:286-293 | each byte is written as two lookup characters whose digit values are its high and low nibbles |
| Util.HexDigitsNibbles | core/src/main/java/org/infinispan/util/Util.java:291-295 | characters `2i` and `2i+1` of the encoding are the digits of the high and low nibble of byte `i` |
| Util.ToHexString | core/src/main/java/org/infinispan/util/Util.java:281-297 | `null` or empty input gives `null`; for a limit from 0 up the text has length `2*min(length, limit)` and holds the nibble digits of each byte; the wrapped buffer size makes limits in [-2^30, -1] and 2^30 or more shown bytes throw `NegativeArraySizeException`, and limits below -2^30 give `'\0'`s only |
| Util.ToHexStringEncodesPrefix | core/src/main/java/org/infinispan/util/Util.java:289-296 | for a limit from 0 up, the text is the encoding of the first `min(length, limit)` bytes and nothing more |
| Util.ToHexStringLoop | core/src/main/java/org/infinispan/util/Util.java:281-297 | the `while` loop that fills a fresh `char[]` two characters per byte computes exactly `ToHexString`, including the `'\0'` padding and the exceptions |
| Util.FillHexBuffer | core/src/main/java/org/infinispan/util/Util.java:289-295 | with a limit from 0 up, the loop fills the fresh buffer with exactly the digits of the first `min(length, limit)` bytes; with a negative limit the loop never runs and the buffer stays all `'\0'` |
| Util.ToHexStringWhole | core/src/main/java/org/infinispan/util/Util.java:277-279 | the one-argument form throws `NullPointerException` on `null`, uses the whole length as limit, and gives `2*length` characters |
| Util.PayloadHex | core/src/main/java/org/infinispan/util/Util.java:264-272 | the payload conversion throws only in debug mode on arrays of 2^30 bytes or more |
| Util.PrintArray | core/src/main/java/org/infinispan/util/Util.java:256-275 | a `null` array prints as `null`; the call throws exactly when a debug-mode array has 2^30 bytes or more |
| JavaText.Wrap32 | core/src/main/java/org/infinispan/util/Util.java:289 | Java `int` arithmetic: the result is congruent to the exact value modulo 2^32, equal to it when it fits, and shifted by 2^32 just outside the range |
| JavaText.NumeralRoundTrip | core/src/main/java/org/infinispan/util/Util.java:259 | the decimal (and hex) text of a number reads back as that number |
| JavaText.HexTextReadBack | core/src/main/java/org/infinispan/util/Util.java:261 | `Integer.toHexString` of any `int` reads back, modulo 2^32, as that `int` |
| JavaText.HexTextOfMinusOne | core/src/main/java/org/infinispan/util/Util.java:261 | `Integer.toHexString(-1)` is `ffffffff`: negative hashes print as their unsigned bit pattern |
| JavaText.Contains | client/hotrod-client/src/main/java/org/infinispan/client/hotrod/impl/operations/PingOperation.java:58 | `contains` holds exactly when the pattern occurs at some position |
| DumpReader.DecodeHexDigits | core/src/main/java/org/infinispan/util/Util.java:291-295 | decoding the hex text of any byte sequence gives back that sequence |
| DumpReader.HexDigitsOfDecoded | core/src/main/java/org/infinispan/util/Util.java:291-295 | every text the decoder accepts is the encoding of what it decodes to, so encoding and decoding are inverse bijections |
| DumpReader.ToHexStringRoundTrip | core/src/main/java/org/infinispan/util/Util.java:281-297 | for a non-empty array, a limit from 0 up and fewer than 2^30 shown bytes, the text decodes to the first `min(length, limit)` bytes |
| DumpReader.ToHexStringWholeRoundTrip | core/src/main/java/org/infinispan/util/Util.java:277-279 | for a non-empty array of fewer than 2^30 bytes, the one-argument form decodes back to the whole array |
| DumpReader.ReadFrame | core/src/main/java/org/infinispan/util/Util.java:258-273 | for non-empty decimal size digits, hex hash digits (if any) and a non-empty payload that does not end in `.`, the frame built from them with an optional `..` parses back into exactly those fields, the size and hash as the numbers their digit texts denote |
| DumpReader.PrintArrayReadBack | core/src/main/java/org/infinispan/util/Util.java:256-275 | the printed frame reads back as the array length, the unsigned identity hash when requested, `..` exactly when not in debug mode, and a payload that decodes to the whole array (debug) or its first 8 bytes, or is `null` for an empty array |
| DumpReader.PrintArrayOfEmpty | core/src/main/java/org/infinispan/util/Util.java:256-275 | an empty array prints as `ByteArray{size=0, array=0xnull..}` (`0xnull}` in debug mode) |
| DumpReader.PrintArrayOfEmptyWithHash | core/src/main/java/org/infinispan/util/Util.java:256-275 | with the hash shown and identity hash -1, an empty array prints as `ByteArray{size=0, hashCode=ffffffff, array=0xnull..}` |
| Ping.NewPing | client/hotrod-client/src/main/java/org/infinispan/client/hotrod/impl/operations/PingOperation.java:29-31 | the three-argument constructor sets the cache name to `DEFAULT_CACHE_NAME_BYTES` |
| Ping.NewPingForCache | client/hotrod-client/src/main/java/org/infinispan/client/hotrod/impl/operations/PingOperation.java:33-36 | the four-argument constructor keeps the given cache name |
| Ping.Execute | client/hotrod-client/src/main/java/org/infinispan/client/hotrod/impl/operations/PingOperation.java:39-64 | the calls made are a prefix of write header (ping opcode, the operation's cache name), flush, read header, each at most once, in that order; `FAIL` is never returned; `SUCCESS` exactly when all calls complete with status `NO_ERROR_STATUS`; `CACHE_DOES_NOT_EXIST` exactly when the first raised exception is a client exception whose message contains `CacheNotFoundException`; any other status throws `InvalidResponseException("Unexpected response status: " + hex)`; other exceptions are rethrown unchanged, and a client exception with a `null` message becomes `NullPointerException` |
| Ping.UnexpectedStatus | client/hotrod-client/src/main/java/org/infinispan/client/hotrod/impl/operations/PingOperation.java:50-55 | a status other than `NO_ERROR_STATUS` becomes an `InvalidResponseException` with a message, and that message never contains `CacheNotFoundException` |
| Ping.UnexpectedStatusNotCacheMissing | client/hotrod-client/src/main/java/org/infinispan/client/hotrod/impl/operations/PingOperation.java:50-62 | the unexpected-status message never contains `CacheNotFoundException`, so the catch clause rethrows that exception unchanged |
| Ping.UnexpectedStatusReadBack | client/hotrod-client/src/main/java/org/infinispan/client/hotrod/impl/operations/PingOperation.java:50-55 | the message is the fixed prefix followed by hex digits that read back as the status |
| Ping.UnexpectedStatusOfMinusOne | client/hotrod-client/src/main/java/org/infinispan/client/hotrod/impl/operations/PingOperation.java:44-55 | a `short` status of -1 is sign-extended and reported as `ffffffff` |
| Ping.DefaultPingWritesDefaultCache | client/hotrod-client/src/main/java/org/infinispan/client/hotrod/impl/operations/PingOperation.java:29-41 | a ping built with the three-argument constructor writes a ping header carrying the empty default cache name |
| Ping.HealthyConnectionSucceeds | client/hotrod-client/src/main/java/org/infinispan/client/hotrod/impl/operations/PingOperation.java:41-48 | when all three calls complete with status `NO_ERROR_STATUS`, the full exchange is made and `SUCCESS` is returned |
| Ping.FailedWriteStopsExchange | client/hotrod-client/src/main/java/org/infinispan/client/hotrod/impl/operations/PingOperation.java:40-42 | when writing the header throws, neither flush nor read happens and there is no retry |

## Left out

- `loadClass`, `getFactoryMethod`, `getInstance`, `loadResourceAsStream`: these are class-loader and reflection lookups into the Java runtime.
- `closeStream`, `closeInput`, `flushAndCloseStream`, `flushAndCloseOutput`, `prettyPrintTime` and the `MapModifications` class are outside the modelled core.
- The two-argument `printArray`: it passes the static field `isArraysDebug`, which is set once, when the class loads, from `Boolean.getBoolean("infinispan.arrays.debug")`. The model makes that flag the explicit `isDebug` parameter of `Util.PrintArray`.
- `array.hashCode()`: the identity hash is an input (`identityHash`) of `Util.PrintArray`, because the JVM chooses it.
- `Util.SafeEquals`: `equals` is a parameter, since user classes define it. Reference identity is modelled as value equality of the references.
- `Util.FormatString`: parameters are modelled by their `String.valueOf` text. A `null` varargs array, which makes `params.length` throw, is not modelled.
- `Ping.Execute`: the header encoding and the response validation (`writeHeader`, `readHeaderAndValidate`, `Codec`, `Transport`) are not part of this model. The transport's behaviour is an input (`Connection`): each call completes or raises, and reading yields a status or raises.
- The topology id and codec that `PingOperation` passes to `HotRodOperation` are not modelled. `execute` uses them only through `writeHeader` and `readHeaderAndValidate`, which are not part of this model.
- Logging and trace calls in `PingOperation` have no effect on the result.
- Characters: a Dafny `char` is a Unicode scalar value, while a Java `char` is a UTF-16 code unit. `JavaText.IndexOf` positions therefore differ from Java's on text outside the Basic Multilingual Plane, and Java strings holding lone surrogates cannot be represented. No modelled result depends on this, since placeholders, hex digits, the frame tags and the `CacheNotFoundException` marker are all ASCII.
- The exception hierarchy of the Hot Rod client is not part of this model. `InvalidResponseException` is assumed to be a `HotRodClientException`, both when `execute` throws it and when the transport raises it. For the unexpected-status exception that `execute` builds itself, `Ping.UnexpectedStatusNotCacheMissing` shows the outcome would be the same if it were not one. For an `InvalidResponseException` raised by `readHeaderAndValidate` whose message contains `CacheNotFoundException`, the model returns `CACHE_DOES_NOT_EXIST`; if the class were not a client exception, Java would rethrow it instead.
