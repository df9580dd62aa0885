# Short-code generator of url-shortner-springboot, in Dafny

This project models how the Spring Boot URL shortener turns a long URL into a
six-character short code. The pipeline exists twice in the service layer, once
as the private helpers of `ShortenerService` and once as
`ShortCodeGeneratorService`. Both copies do the same three steps:

1. `url.replaceAll("^https?://", "")` removes a leading `http://` or `https://`.
   The match is case-sensitive and happens at most once.
2. `generateHashBase` takes SHA-256 of the stripped string. It encodes the
   digest as unpadded base64url and keeps the first `min(4, length)` characters.
3. The padding loop appends `CHARSET.charAt(random.nextInt(62))` until the code
   has six characters. `CHARSET` is `A-Z a-z 0-9`.

`ShortenerService.shortenUrl` then builds a response from the URL as given, the
code, and one `Instant.now()` used as both `createdAt` and `updatedAt`. If no
SHA-256 provider exists, it throws a `RuntimeException` that wraps the
`NoSuchAlgorithmException`. `ShortCodeGeneratorService.generateShortCode`
returns only the code and lets the `NoSuchAlgorithmException` through unchanged.

Modules:

- `Jdk` (jdk.dfy) holds the Java platform pieces the services call. Exceptions
  are a `Result` type. The SHA-256 provider is `Missing` or `Installed` with an
  uninterpreted 32-byte digest function. The static `java.util.Random` each service
  holds (one per service) is a class whose future draws are injected, with a position counter that
  `NextInt` advances.
- `Base64Url` (base64_url.dfy) is the unpadded base64url encoder of section 5
  of RFC 4648, with padding left out as section 3.2 allows. A decoder is defined
  alongside it, and the round trip is proved for every byte sequence.
- `Protocol` (protocol.dfy) has a small backtracking matcher for the anchored
  pattern `^https?://` and the `replaceAll` built on it.
- `ShortCode` (short_code.dfy) is the pipeline, defined once. It has the
  specification functions, the imperative padding loop, and the lemmas about
  the codes.
- `ShortCodeGeneratorService` and `ShortenerService` contain the two services'
  methods. Each method is proved equal to the shared specification.
- `ServiceAgreement` calls both services with the same inputs and proves they
  produce the same code.

Facts of the code that the model makes explicit:

- **Alphabet.** `CHARSET` holds only letters and digits, but the hash prefix
  is base64url, so a code can also contain `-` and `_`.
  `ShortCode.CodeMayLeaveCharset` shows the inputs that cause this.
- **Prefix length.** The doc comment of `ShortenerService.generateHashBase`
  says "first 6 characters". The code keeps 4, and the model follows the code.
- **Uniqueness.** The doc comments promise unique codes. Nothing enforces
  that, so the model claims no uniqueness.

## Model

| member | source | states |
|---|---|---|
| Jdk.Sha256 | src/main/java/com/arnavbansal2764/url_shortner/service/ShortCodeGeneratorService.java:49-50 | getting the digest fails exactly when no SHA-256 provider is installed, with NoSuchAlgorithmException("SHA-256"); otherwise it is the provider's 32-byte digest of the input |
| Jdk.Random.constructor | src/main/java/com/arnavbansal2764/url_shortner/service/ShortenerService.java:23 | a new generator holds its injected draws and has made no draw yet (position 0) |
| Jdk.Random.NextInt | src/main/java/com/arnavbansal2764/url_shortner/service/ShortenerService.java:88 | nextInt(bound) returns a value below bound, the current draw modulo bound, and advances the service's generator by exactly one draw |
| Base64Url.Encode | src/main/java/com/arnavbansal2764/url_shortner/service/ShortenerService.java:69 | the unpadded base64url text of n bytes has ceil(4n/3) characters, all from A-Z a-z 0-9 - _ |
| Base64Url.DecodeEncode | src/main/java/com/arnavbansal2764/url_shortner/service/ShortenerService.java:69 | decoding the encoding of any byte sequence gives back that sequence |
| Base64Url.EncodeInjective | src/main/java/com/arnavbansal2764/url_shortner/service/ShortCodeGeneratorService.java:51 | distinct byte sequences have distinct encodings |
| Base64Url.EncodePrefix | src/main/java/com/arnavbansal2764/url_shortner/service/ShortenerService.java:69-72 | for three bytes or more, the encoding has at least 4 characters, and the first 4 are the 6-bit groups of the first three bytes |
| Base64Url.DigestEncodedLength | src/main/java/com/arnavbansal2764/url_shortner/service/ShortCodeGeneratorService.java:51 | a 32-byte digest encodes to 43 characters, so min(4, length) is always 4 |
| Base64Url.GroupCharsInjective | src/main/java/com/arnavbansal2764/url_shortner/service/ShortCodeGeneratorService.java:54 | two three-byte groups with the same four characters are equal |
| Base64Url.AlphabetTable | src/main/java/com/arnavbansal2764/url_shortner/service/ShortenerService.java:69 | the 64-character URL-safe table maps 0-25 to A-Z, 26-51 to a-z, 52-61 to 0-9, 62 to '-' and 63 to '_' |
| Protocol.MatchLength | src/main/java/com/arnavbansal2764/url_shortner/service/ShortenerService.java:38 | an anchored match of a pattern at the start of a string is never longer than the string or than the pattern |
| Protocol.ReplaceAllAnchored | src/main/java/com/arnavbansal2764/url_shortner/service/ShortenerService.java:38 | replacing an anchored match with "" removes at most as many leading characters as the pattern has atoms, and leaves a suffix of the input |
| Protocol.StripProtocol | src/main/java/com/arnavbansal2764/url_shortner/service/ShortCodeGeneratorService.java:31 | url.replaceAll("^https?://", "") is a suffix of the URL with at most 8 characters removed |
| Protocol.MatchProtocol | src/main/java/com/arnavbansal2764/url_shortner/service/ShortenerService.java:38 | ^https?:// matches 8 characters at the start of "https://...", 7 at the start of "http://...", and nothing otherwise |
| Protocol.StripProtocolCases | src/main/java/com/arnavbansal2764/url_shortner/service/ShortenerService.java:38 | the strip removes a leading "https://" or "http://" (case-sensitive) and returns any other string unchanged |
| Protocol.StripProtocolSuffix | src/main/java/com/arnavbansal2764/url_shortner/service/ShortCodeGeneratorService.java:31 | the stripped URL is always a suffix of the URL, with 0, 7 or 8 characters removed |
| Protocol.StripAtMostOnce | src/main/java/com/arnavbansal2764/url_shortner/service/ShortCodeGeneratorService.java:31 | only one protocol is removed: "http://" + rest and "https://" + rest strip to rest even when rest starts with a protocol |
| Protocol.MatchLiterals | src/main/java/com/arnavbansal2764/url_shortner/service/ShortenerService.java:38 | a run of literal characters in the pattern matches exactly when the text starts with them, and matching then continues after them |
| ShortCode.CharsetInAlphabet | src/main/java/com/arnavbansal2764/url_shortner/service/ShortenerService.java:24 | CHARSET is the first 62 characters of the base64url table, that is the table without '-' and '_', in the same order |
| ShortCode.CharsetIsAlphanumeric | src/main/java/com/arnavbansal2764/url_shortner/service/ShortCodeGeneratorService.java:18 | a character is in CHARSET exactly when it is an ASCII letter or digit |
| ShortCode.GenerateHashBase | src/main/java/com/arnavbansal2764/url_shortner/service/ShortenerService.java:66-73 | fails exactly when SHA-256 is missing, with NoSuchAlgorithmException; otherwise it returns the first 4 characters of the encoded digest, which are base64url characters fixed by the digest's first three bytes |
| ShortCode.Pick | src/main/java/com/arnavbansal2764/url_shortner/service/ShortenerService.java:88 | CHARSET.charAt(nextInt(CHARSET.length())) is always a CHARSET character; the index is in bounds |
| ShortCode.RandomChars | src/main/java/com/arnavbansal2764/url_shortner/service/ShortenerService.java:87-89 | n loop iterations append n characters, the i-th chosen by draw from + i and lying in CHARSET |
| ShortCode.RemainingLength | src/main/java/com/arnavbansal2764/url_shortner/service/ShortCodeGeneratorService.java:68-69 | the loop runs 6 - length times when that is positive and not at all otherwise, so the final length is max(6, length) |
| ShortCode.Combine | src/main/java/com/arnavbansal2764/url_shortner/service/ShortCodeGeneratorService.java:64-74 | the padded code has length max(6, length of hashBase), starts with hashBase unchanged, and every later character is a CHARSET character picked by the next draw |
| ShortCode.AppendRandomChars | src/main/java/com/arnavbansal2764/url_shortner/service/ShortenerService.java:82-92 | the StringBuilder loop produces Combine(hashBase, ...) from the generator's position and consumes exactly RemainingLength(hashBase) draws |
| ShortCode.Generate | src/main/java/com/arnavbansal2764/url_shortner/service/ShortCodeGeneratorService.java:29-38 | the pipeline fails exactly when SHA-256 is missing; otherwise the code has 6 characters: the hash prefix of the stripped URL, then the CHARSET characters of the next two draws |
| ShortCode.CodeAlphabet | src/main/java/com/arnavbansal2764/url_shortner/service/ShortenerService.java:41-44 | every code character is from A-Z a-z 0-9 - _, and the last two are letters or digits |
| ShortCode.CodeMayLeaveCharset | src/main/java/com/arnavbansal2764/url_shortner/service/ShortenerService.java:69-72 | a digest whose first byte is 0xF8 or more gives a code starting with '-' or '_', which are not in CHARSET |
| ShortCode.SameUrlSamePrefix | src/main/java/com/arnavbansal2764/url_shortner/service/ShortCodeGeneratorService.java:31-37 | two codes for the same URL share their 4-character prefix and are equal exactly when their two random characters are |
| ShortCode.ProtocolDoesNotAffectPrefix | src/main/java/com/arnavbansal2764/url_shortner/service/ShortenerService.java:38-41 | "http://" + x and "https://" + x get the hash prefix of x itself, taken unstripped (x is not stripped a second time) |
| ShortCode.DistinctDigestsDistinctHashBases | src/main/java/com/arnavbansal2764/url_shortner/service/ShortCodeGeneratorService.java:48-55 | inputs whose digests differ in the first three bytes get different hash prefixes |
| ShortCodeGeneratorService.GenerateShortCode | src/main/java/com/arnavbansal2764/url_shortner/service/ShortCodeGeneratorService.java:29-38 | returns ShortCode.Generate at the generator's position; a missing SHA-256 propagates as NoSuchAlgorithmException; consumes two draws, or none on failure |
| ShortCodeGeneratorService.CombineHashWithRandomChars | src/main/java/com/arnavbansal2764/url_shortner/service/ShortCodeGeneratorService.java:64-74 | returns ShortCode.Combine at the generator's position and consumes RemainingLength(hashBase) draws |
| ShortenerService.ShortenUrl | src/main/java/com/arnavbansal2764/url_shortner/service/ShortenerService.java:35-56 | succeeds exactly when SHA-256 is installed, with a response holding the unstripped URL, the generated code and `now` as both createdAt and updatedAt; otherwise RuntimeException("Failed to generate short code") wrapping NoSuchAlgorithmException, with no draw consumed |
| ShortenerService.GenerateShortCode | src/main/java/com/arnavbansal2764/url_shortner/service/ShortenerService.java:82-92 | returns ShortCode.Combine at the generator's position and consumes RemainingLength(hashBase) draws |
| ServiceAgreement.BothServicesAgree | src/main/java/com/arnavbansal2764/url_shortner/service/ShortenerService.java:35-56 | given the same URL, provider and draws, shortenUrl's shortCode equals generateShortCode's result, shortenUrl keeps the URL, and on failure shortenUrl's exception wraps generateShortCode's |

## Left out

- HTTP controllers, the entity, the DTOs' getters and setters, and the JPA repository are plumbing with no logic. The controller calls `getUrlByShortCode`, `updateUrlByShortCode` and `deleteUrlByShortCode`, but the service code does not define them, so there is no store, resolution, update, delete or access count to model.
- The `@Pattern("^https?://.*")` and `@NotBlank` request checks are done by the framework. The strip is modelled for every string, since it also handles URLs without a protocol.
- SHA-256 and `String.getBytes()` are one uninterpreted function. It returns 32 bytes, and nothing else about it is assumed.
- Jdk.Random.NextInt: it models `java.util.Random` as an injected sequence of accepted draws. It leaves out the 48-bit linear congruential generator, the rejection of biased draws, the multiply-shift branch for power-of-two bounds, the random distribution, and thread-safety under concurrent use.
- `Instant.now()` is a parameter. SLF4J logging is not modelled.
- Uniqueness of codes and collision handling are not implemented in the source, so they are not modelled.
