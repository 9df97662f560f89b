# SwiftJWT token pipeline in Dafny

SwiftJWT is a command-line tool that mints an ES256-signed JSON Web Token. It
builds a JOSE header `{alg: "ES256", kid}` and a claim set `{iss, iat, exp}`,
serialises each to JSON, base64url-encodes both, signs the UTF-8 bytes of
`header.payload` with an ECDSA P-256 key, base64url-encodes the raw 64-byte
signature, and prints `header.payload.signature`. That is the JWS compact
serialization of section 7.1 of RFC 7515.

This project models the string side of that pipeline:

- `Base64` (`base64.dfy`) is Foundation's `base64EncodedString()`. It is the
  padded standard base64 of section 4 of RFC 4648. A strict decoder is its
  partner.
- `Base64Url` (`base64url.dfy`) is `Data.base64EncodedURL()`. It is the three
  `replacingOccurrences` calls of line 7, composed in the source's order:
  `+` to `-`, then `/` to `_`, then every `=` removed. It is proved equal to a
  direct definition: the alphabet of section 5 of RFC 4648, with no padding.
  The alphabet, length, injectivity and round-trip properties follow from that.
- `Claims` (`claims.dfy`) holds the header, the payload and the ES256
  signature as `r` and `s`, with its 64-byte raw form (section 3.4 of RFC 7518).
- `Text` (`text.dfy`) holds UTF-8 encoding (`String.data(using: .utf8)`),
  splitting on a separator, and joining.
- `Token` (`token.dfy`) is the assembly in `run()`. It also has a parser that
  reads a token back, used to state the round trip.

JSON serialisation, the calendar arithmetic and signing are library calls
whose code is not part of this model. They are the function-valued fields of
`Token.Foreign`. The current instant is the input `now`, a real number of
seconds since the Unix epoch. The calendar's expiry instant is
`Foreign.expiry(now)`. `Int(timeIntervalSince1970)` is `Claims.TruncateToInt`,
which rounds toward zero.

## Model

| member | source | states |
|---|---|---|
| Base64.GroupRoundTrip | Sources/SwiftJWT/swiftJWT.swift:7 | three bytes split into four 6-bit groups and joined again give back the same three bytes |
| Base64.GroupCanonical | Sources/SwiftJWT/swiftJWT.swift:7 | four 6-bit groups joined into three bytes and split again give back the same four groups, so each 24-bit group has exactly one encoding |
| Base64.Sextets | Sources/SwiftJWT/swiftJWT.swift:7 | the input's 24-bit groups split into 6-bit groups; n bytes give (4n+2)/3 groups |
| Base64.SextetsRoundTrip | Sources/SwiftJWT/swiftJWT.swift:7 | reassembling the 6-bit groups gives back exactly the input bytes |
| Base64.FromSextetsCanonical | Sources/SwiftJWT/swiftJWT.swift:7 | the only 6-bit groups that reassemble to given bytes are those bytes' own groups |
| Base64.StdValuesIff | Sources/SwiftJWT/swiftJWT.swift:7 | reading standard-alphabet characters as values succeeds with q exactly on the characters of q |
| Base64.Encode | Sources/SwiftJWT/swiftJWT.swift:7 | `base64EncodedString()`: length 4*ceil(n/3); `=` appears only as the trailing padding after the (4n+2)/3 data characters; every other character is in the standard alphabet |
| Base64.EncodeRoundTrip | Sources/SwiftJWT/swiftJWT.swift:7 | strict standard decoding of the padded encoding returns the input bytes |
| Base64.DecodeCanonical | Sources/SwiftJWT/swiftJWT.swift:7 | a string the strict decoder accepts is exactly the encoding of what it decodes to, so no other spelling (other padding, nonzero fill bits) exists |
| Base64.DecodeIff | Sources/SwiftJWT/swiftJWT.swift:7 | the standard decoder accepts a string with result d exactly when the string is the encoding of d |
| Base64.Rfc4648FVector | Sources/SwiftJWT/swiftJWT.swift:7 | the empty input encodes to the empty string and "f" to "Zg==" (section 10 of RFC 4648) |
| Base64.Rfc4648FoVector | Sources/SwiftJWT/swiftJWT.swift:7 | "fo" encodes to "Zm8=" (section 10 of RFC 4648) |
| Base64.Rfc4648FooVector | Sources/SwiftJWT/swiftJWT.swift:7 | "foo" encodes to "Zm9v" (section 10 of RFC 4648) |
| Base64.Rfc4648FoobVector | Sources/SwiftJWT/swiftJWT.swift:7 | "foob" encodes to "Zm9vYg==" (section 10 of RFC 4648) |
| Base64.Rfc4648FoobaVector | Sources/SwiftJWT/swiftJWT.swift:7 | "fooba" encodes to "Zm9vYmE=" (section 10 of RFC 4648) |
| Base64.Rfc4648FoobarVector | Sources/SwiftJWT/swiftJWT.swift:7 | "foobar" encodes to "Zm9vYmFy" (section 10 of RFC 4648) |
| Base64Url.ReplaceOccurrences | Sources/SwiftJWT/swiftJWT.swift:7 | `replacingOccurrences(of:with:)` with a one-character target: a character is in the result iff it is a kept character of the input, or the target occurred and it is in the replacement |
| Base64Url.ReplaceInPlace | Sources/SwiftJWT/swiftJWT.swift:7 | with a one-character replacement the result has the input's length, and position i holds the replacement where the input had the target and the input's character everywhere else |
| Base64Url.ReplaceByNothing | Sources/SwiftJWT/swiftJWT.swift:7 | with the empty replacement the result is shorter by the number of occurrences, and every other character keeps its order, moving left by the number of targets before it |
| Base64Url.OccurrencesIsMultiplicity | Sources/SwiftJWT/swiftJWT.swift:7 | the count of removed characters is the target's multiplicity in the input |
| Base64Url.ReplaceAppend | Sources/SwiftJWT/swiftJWT.swift:7 | replacing in a concatenation is replacing in each part |
| Base64Url.Substitute | Sources/SwiftJWT/swiftJWT.swift:7 | `+` to `-`, then `/` to `_`: same length; position i holds `-` where the input had `+`, `_` where it had `/`, and the input's character elsewhere; neither `+` nor `/` remains |
| Base64Url.StripPadding | Sources/SwiftJWT/swiftJWT.swift:7 | removing `=`: the result holds exactly the input's characters other than `=`, is shorter by the number of `=`, and keeps them in order, each moving left by the number of `=` before it |
| Base64Url.EncodedUrl | Sources/SwiftJWT/swiftJWT.swift:6-8 | `base64EncodedURL()`, the three replacements in the source's order: equals the section-5 alphabet characters of the 6-bit groups; length (4n+2)/3, so empty input gives the empty string; every character is in `A-Z a-z 0-9 - _`; no `+`, `/`, `=` or `.` |
| Base64Url.PipelineIsUrlChars | Sources/SwiftJWT/swiftJWT.swift:7 | the three replacements applied to the padded standard encoding give exactly the unpadded base64url characters |
| Base64Url.UrlValuesIff | Sources/SwiftJWT/swiftJWT.swift:7 | reading base64url characters as values succeeds with q exactly on the characters of q |
| Base64Url.DecodeIff | Sources/SwiftJWT/swiftJWT.swift:7 | the base64url decoder returns d for a string exactly when that string is `base64EncodedURL()` of d |
| Base64Url.EncodedUrlInjective | Sources/SwiftJWT/swiftJWT.swift:7 | distinct byte strings have distinct base64url encodings, so dropping the padding loses nothing |
| Base64Url.Unsubstitute | Sources/SwiftJWT/swiftJWT.swift:7 | the inverse substitution: same length; `-` back to `+`, `_` back to `/`, every other character kept in place |
| Base64Url.RepaddedIsStandard | Sources/SwiftJWT/swiftJWT.swift:7 | re-padding the URL-safe encoding to a multiple of four and undoing the substitution gives exactly `base64EncodedString()` of the same bytes |
| Base64Url.RepaddedStandardDecode | Sources/SwiftJWT/swiftJWT.swift:7 | the re-padded, unsubstituted string is the standard encoding, and the standard decoder maps it to the input bytes |
| Base64Url.UrlSafeVector | Sources/SwiftJWT/swiftJWT.swift:6-8 | the bytes 0xfb 0xff encode to "-_8": both substitutions apply and the `=` is removed |
| Base64Url.SignatureSegmentLength | Sources/SwiftJWT/swiftJWT.swift:72-73 | a 64-byte raw signature encodes to 86 characters |
| Claims.HeaderAlgFixed | Sources/SwiftJWT/swiftJWT.swift:11-14 | a header built from any key id has `alg` ES256 and `kid` that key id; this holds by the definition of `Header` and is recorded, not proved |
| Claims.TruncateToInt | Sources/SwiftJWT/swiftJWT.swift:24-25 | `Int(_: Double)`: the whole number nearest zero within one second of the instant, never past it |
| Claims.TruncateMonotonic | Sources/SwiftJWT/swiftJWT.swift:24-25 | truncation keeps the order of two instants |
| Claims.NewPayload | Sources/SwiftJWT/swiftJWT.swift:16-26 | `Payload.init`: `iss` is kept; `iat` and `exp` are the truncations of the instant and of the calendar's expiry instant; an expiry not before the instant gives `exp >= iat`, and one at least two seconds later gives `exp > iat` |
| Claims.RawRepresentation | Sources/SwiftJWT/swiftJWT.swift:73 | the raw signature is 64 bytes, r in the first 32 and s in the last 32 |
| Claims.RawRepresentationIff | Sources/SwiftJWT/swiftJWT.swift:73 | parsing 64 raw bytes gives the signature sig exactly when they are sig's raw form |
| Text.Split | Sources/SwiftJWT/swiftJWT.swift:75 | splitting gives at least one piece and no piece contains the separator |
| Text.JoinSplit | Sources/SwiftJWT/swiftJWT.swift:75 | splitting a string on a separator and joining the pieces restores it |
| Text.SplitJoin | Sources/SwiftJWT/swiftJWT.swift:75 | joining separator-free pieces and splitting again gives the same pieces |
| Text.SplitTwo | Sources/SwiftJWT/swiftJWT.swift:70 | two separator-free pieces joined by the separator split back into exactly those two |
| Text.SplitThree | Sources/SwiftJWT/swiftJWT.swift:75 | three separator-free pieces joined by the separator split back into exactly those three |
| Text.JoinThree | Sources/SwiftJWT/swiftJWT.swift:75 | joining three pieces puts the separator after each piece but the last |
| Text.Utf8 | Sources/SwiftJWT/swiftJWT.swift:70 | UTF-8 never shortens a string; a string of ASCII characters becomes one byte per character, equal to its code |
| Token.SigningInput | Sources/SwiftJWT/swiftJWT.swift:70 | the signing input `header.payload` is one character longer than the two segments together, and dot-free segments split back out of it |
| Token.Assemble | Sources/SwiftJWT/swiftJWT.swift:75 | the token is the signing input, a `.`, and the signature segment; three dot-free segments split back out of it |
| Token.HeaderString | Sources/SwiftJWT/swiftJWT.swift:64-65 | the header segment decodes to the JSON of `Header(kid: keyId)`, contains no `.`, and is all URL-safe characters |
| Token.PayloadString | Sources/SwiftJWT/swiftJWT.swift:67-68 | the payload segment decodes to the JSON of the claims built from the issuer, `now` and the calendar's expiry, contains no `.`, and is all URL-safe characters |
| Token.SignedData | Sources/SwiftJWT/swiftJWT.swift:70 | the signed bytes are the signing input's UTF-8: one byte per character, equal to its code, because the input is ASCII |
| Token.SignatureString | Sources/SwiftJWT/swiftJWT.swift:72-73 | the signature segment has 86 characters, decodes to the raw form of the signature over the signed bytes, contains no `.`, and is all URL-safe characters |
| Token.Run | Sources/SwiftJWT/swiftJWT.swift:64-75 | the printed token splits on `.` into exactly three segments: the encoded header JSON, the encoded payload JSON and the encoded raw signature; besides the two dots it has only URL-safe characters |
| Token.AssembleAlphabet | Sources/SwiftJWT/swiftJWT.swift:75 | joining URL-safe segments adds no character except the two dots |
| Token.AssembleParts | Sources/SwiftJWT/swiftJWT.swift:70-75 | in an assembled token the signing input sits at the front, a `.` right after it, then the signature segment; the bytes of the signing input are the codes of that prefix |
| Token.SigningInputIsPrefix | Sources/SwiftJWT/swiftJWT.swift:70-75 | the signing input is the token's prefix before its last `.`; the signed bytes are that prefix, one byte per character; the rest is the 86-character signature segment |
| Token.ParseRun | Sources/SwiftJWT/swiftJWT.swift:64-75 | parsing the token gives the header JSON for the key id, the payload JSON for the claims, and the signature over the signed bytes |
| Token.ParseSegments | Sources/SwiftJWT/swiftJWT.swift:75 | a token the parser accepts has exactly three segments, which decode to its header, its payload and the raw form of its signature |
| Token.ThreeSegments | Sources/SwiftJWT/swiftJWT.swift:75 | a string that splits into three segments is their assembly |
| Token.ParseSound | Sources/SwiftJWT/swiftJWT.swift:75 | every token the parser accepts is the assembly of the encodings of its parts |
| Token.HeaderPayloadReproducible | Sources/SwiftJWT/swiftJWT.swift:64-72 | two runs with the same inputs, JSON encoders and calendar have the same header and payload segments and sign the same bytes, even when the signatures differ; this holds by definition and is recorded, not proved |

## Left out

- Argument parsing, `validate()` and reading the key file (lines 30-56) are left out. They are argument-parser and file-system plumbing.
- Printing the token (line 76) is left out. It is I/O; `Token.Run` returns the string.
- PEM key parsing and ECDSA P-256/SHA-256 signing through CryptoKit (lines 62, 72) are left out. They are foreign cryptographic calls. Signing is the `sign` field of `Token.Foreign`, whose result is an `(r, s)` pair of 32-byte values.
- `JSONEncoder().encode` (lines 64, 67) is left out. It is the `headerJson` and `payloadJson` fields of `Token.Foreign`. Key order and escaping belong to the encoder, and the code does not set an output format. So the model does not claim any particular JSON text, such as the key order of the header.
- `Calendar.current.date(byAdding:to:)` (line 25) is left out. It is locale-dependent library arithmetic. It is the `expiry` field of `Token.Foreign`, a function from instant to instant. The duration it adds is fixed at five months (line 60); nothing in the code lets a caller choose another lifetime.
- `Date()` (line 59) is left out. It is the clock; the instant is the `now` input of `Token.Run`.
- `Claims.TruncateToInt`: a `Double` is taken as an exact real. Floating-point rounding of `timeIntervalSince1970` is not modelled, and neither is the trap of `Int(_:)` on a value out of range or not a number.
- The trap-on-failure behaviour of `try!` and `!` (lines 25, 56, 62, 64, 67, 70, 72) is left out. It is process-level error handling: the program stops instead of returning an error. The model's functions are total. The UTF-8 conversion on line 70 cannot fail for any string.
- `Package.swift` is left out. It is a build manifest with no logic.
- The source has no decoder. `Base64.Decode`, `Base64Url.Decode` and `Token.Parse` are reference partners that state the round trips. They are not models of source code.
