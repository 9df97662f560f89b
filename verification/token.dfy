/**
 The token assembly of `run()` (Sources/SwiftJWT/swiftJWT.swift, lines
 58-75): the JWS compact serialization of section 7.1 of RFC 7515. The header
 and payload are serialised to JSON and base64url-encoded; the two segments
 joined by `.` form the signing input, whose UTF-8 bytes are signed; the raw
 signature is base64url-encoded and appended after another `.`.

 JSON serialisation, the calendar arithmetic for the expiry and ES256 signing
 are library calls whose code is not part of this model: they are the
 functions of a `Foreign` value.
 */
module Token {
  import opened Wrappers
  import opened Base64
  import opened Base64Url
  import opened Text
  import opened Claims

  /** The segment separator of the compact serialization. */
  const Dot: char := '.'

  /** The library calls `run()` depends on: `JSONEncoder().encode` for each
      claim set, `Calendar.current.date(byAdding:to:)` with the fixed
      five-month duration (as seconds since the epoch, in and out), and
      signing with the parsed private key. */
  datatype Foreign = Foreign(
    headerJson: Header -> seq<Byte>,
    payloadJson: Payload -> seq<Byte>,
    expiry: real -> real,
    sign: seq<Byte> -> Signature)

  /** The JWS signing input: the encoded header and payload joined by `.`
      (section 5.1 of RFC 7515). Dot-free segments can be recovered from it. */
  function SigningInput(headerString: string, payloadString: string): (r: string)
    ensures |r| == |headerString| + 1 + |payloadString|
    ensures Dot !in headerString && Dot !in payloadString ==>
              Split(r, Dot) == [headerString, payloadString]
  {
    var r := headerString + [Dot] + payloadString;
    assert Dot !in headerString && Dot !in payloadString ==>
             Split(r, Dot) == [headerString, payloadString] by {
      if Dot !in headerString && Dot !in payloadString {
        SplitTwo(headerString, payloadString, Dot);
      }
    }
    r
  }

  /** The compact serialization of three encoded segments: the signing input,
      a `.`, and the signature segment. Dot-free segments can be recovered
      from it. */
  function Assemble(headerString: string, payloadString: string, signatureString: string): (token: string)
    ensures token == SigningInput(headerString, payloadString) + [Dot] + signatureString
    ensures Dot !in headerString && Dot !in payloadString && Dot !in signatureString ==>
              Split(token, Dot) == [headerString, payloadString, signatureString]
  {
    var token := headerString + [Dot] + payloadString + [Dot] + signatureString;
    assert Dot !in headerString && Dot !in payloadString && Dot !in signatureString ==>
             Split(token, Dot) == [headerString, payloadString, signatureString] by {
      if Dot !in headerString && Dot !in payloadString && Dot !in signatureString {
        SplitThree(headerString, payloadString, signatureString, Dot);
      }
    }
    token
  }

  /** The header segment: the JSON of `Header(kid: keyId)`, base64url-encoded.
      It decodes back to that JSON and holds no `.`. */
  function HeaderString(keyId: string, f: Foreign): (r: string)
    ensures Base64Url.Decode(r) == Some(f.headerJson(Header(keyId)))
    ensures Dot !in r && forall i :: 0 <= i < |r| ==> UrlValue(r[i]).Some?
  {
    var json := f.headerJson(Header(keyId));
    Base64Url.DecodeIff(EncodedUrl(json), json);
    EncodedUrl(json)
  }

  /** The claims `run()` serialises: the issuer, the current instant and the
      expiry the calendar computes from it. */
  function RunClaims(devId: string, now: real, f: Foreign): Payload
  {
    NewPayload(devId, now, f.expiry(now))
  }

  /** The payload segment: the JSON of the claims, base64url-encoded. It
      decodes back to that JSON and holds no `.`. */
  function PayloadString(devId: string, now: real, f: Foreign): (r: string)
    ensures Base64Url.Decode(r) == Some(f.payloadJson(RunClaims(devId, now, f)))
    ensures Dot !in r && forall i :: 0 <= i < |r| ==> UrlValue(r[i]).Some?
  {
    var json := f.payloadJson(RunClaims(devId, now, f));
    Base64Url.DecodeIff(EncodedUrl(json), json);
    EncodedUrl(json)
  }

  /** The bytes that are signed: the signing input as UTF-8, which, the
      input being ASCII, is one byte per character holding its code. */
  function SignedData(keyId: string, devId: string, now: real, f: Foreign): (data: seq<Byte>)
    ensures var input := SigningInput(HeaderString(keyId, f), PayloadString(devId, now, f));
            |data| == |input| && forall i :: 0 <= i < |input| ==> data[i] == input[i] as int
  {
    var input := SigningInput(HeaderString(keyId, f), PayloadString(devId, now, f));
    SigningInputIsAscii(HeaderString(keyId, f), PayloadString(devId, now, f));
    Utf8(input)
  }

  /** The signing input of two URL-safe segments is ASCII. */
  lemma SigningInputIsAscii(h: string, p: string)
    requires forall i :: 0 <= i < |h| ==> UrlValue(h[i]).Some?
    requires forall i :: 0 <= i < |p| ==> UrlValue(p[i]).Some?
    ensures var input := SigningInput(h, p);
            forall i :: 0 <= i < |input| ==> input[i] as int < 0x80
  {
    var input := SigningInput(h, p);
    forall i | 0 <= i < |input| ensures input[i] as int < 0x80 {
      if i < |h| {
        assert input[i] == h[i];
        UrlValueIsAscii(h[i]);
      } else if i > |h| {
        assert input[i] == p[i - |h| - 1];
        UrlValueIsAscii(p[i - |h| - 1]);
      }
    }
  }

  /** URL-safe characters are ASCII. */
  lemma UrlValueIsAscii(c: char)
    requires UrlValue(c).Some?
    ensures c as int < 0x80
  {
    var v := UrlValue(c).value;
    assert UrlChar(v) == c;
  }

  /** The signature segment: 86 characters that decode to the raw r-and-s form
      of the signature over the signed data. */
  function SignatureString(keyId: string, devId: string, now: real, f: Foreign): (r: string)
    ensures |r| == 86
    ensures Base64Url.Decode(r) == Some(RawRepresentation(f.sign(SignedData(keyId, devId, now, f))))
    ensures Dot !in r && forall i :: 0 <= i < |r| ==> UrlValue(r[i]).Some?
  {
    var raw := RawRepresentation(f.sign(SignedData(keyId, devId, now, f)));
    Base64Url.DecodeIff(EncodedUrl(raw), raw);
    EncodedUrl(raw)
  }

  /** The token `run()` prints, from the key id, the issuer, the current
      instant and the foreign calls. It has exactly three `.`-separated
      segments, the header, payload and signature segments, and nothing but
      URL-safe characters besides the two dots. */
  function Run(keyId: string, devId: string, now: real, f: Foreign): (token: string)
    ensures Split(token, Dot) == [HeaderString(keyId, f), PayloadString(devId, now, f),
                                 SignatureString(keyId, devId, now, f)]
    ensures forall i :: 0 <= i < |token| ==> token[i] == Dot || UrlValue(token[i]).Some?
  {
    var headerString := HeaderString(keyId, f);
    var payloadString := PayloadString(devId, now, f);
    var signatureString := SignatureString(keyId, devId, now, f);
    AssembleAlphabet(headerString, payloadString, signatureString);
    Assemble(headerString, payloadString, signatureString)
  }

  /** Assembling URL-safe segments adds no character but the two dots. */
  lemma AssembleAlphabet(h: string, p: string, s: string)
    requires forall i :: 0 <= i < |h| ==> UrlValue(h[i]).Some?
    requires forall i :: 0 <= i < |p| ==> UrlValue(p[i]).Some?
    requires forall i :: 0 <= i < |s| ==> UrlValue(s[i]).Some?
    ensures var token := Assemble(h, p, s);
            forall i :: 0 <= i < |token| ==> token[i] == Dot || UrlValue(token[i]).Some?
  {
    var token := Assemble(h, p, s);
    forall i | 0 <= i < |token| ensures token[i] == Dot || UrlValue(token[i]).Some? {
      if i < |h| {
        assert token[i] == h[i];
      } else if |h| < i < |h| + 1 + |p| {
        assert token[i] == p[i - |h| - 1];
      } else if i > |h| + 1 + |p| {
        assert token[i] == s[i - |h| - |p| - 2];
      }
    }
  }

  /** The signing input is exactly the token's prefix before its last `.`; what
      is signed is that prefix, one byte per character; after the last `.`
      comes the 86-character signature segment. */
  lemma SigningInputIsPrefix(keyId: string, devId: string, now: real, f: Foreign)
    ensures var token := Run(keyId, devId, now, f);
            var input := SigningInput(HeaderString(keyId, f), PayloadString(devId, now, f));
            var k := |input|;
            && k < |token| && token[..k] == input && token[k] == Dot
            && Dot !in token[k + 1..]
            && token[k + 1..] == SignatureString(keyId, devId, now, f)
            && |token[k + 1..]| == 86
            && SignedData(keyId, devId, now, f) == seq(k, i requires 0 <= i < k => token[i] as int)
  {
    var h := HeaderString(keyId, f);
    var p := PayloadString(devId, now, f);
    var s := SignatureString(keyId, devId, now, f);
    var data := SignedData(keyId, devId, now, f);
    var token := Run(keyId, devId, now, f);
    assert token == Assemble(h, p, s);
    AssembleParts(token, h, p, s, data);
  }

  /** The assembled token is the signing input, a dot, and the signature
      segment, at fixed positions; bytes that hold the signing input's codes
      hold the codes of the token's prefix. */
  lemma AssembleParts(token: string, h: string, p: string, s: string, data: seq<Byte>)
    requires token == Assemble(h, p, s)
    requires var input := SigningInput(h, p);
             |data| == |input| && forall i :: 0 <= i < |input| ==> data[i] == input[i] as int
    ensures var k := |SigningInput(h, p)|;
            && |token| == k + 1 + |s|
            && token[..k] == SigningInput(h, p) && token[k] == Dot && token[k + 1..] == s
            && data == seq(k, i requires 0 <= i < k => token[i] as int)
  {
    var input := SigningInput(h, p);
    assert token == input + [Dot] + s;
    assert token[..|input|] == input;
    assert token[|input| + 1..] == s;
  }

  // ---------------------------------------------------------------------------
  // Reading a token back: the partner of Run
  // ---------------------------------------------------------------------------

  /** What a compact token carries: the header and payload bytes and the
      signature. */
  datatype Parts = Parts(header: seq<Byte>, payload: seq<Byte>, signature: Signature)

  /** Splits a compact token on `.` and decodes the three segments; rejects
      any other number of segments, any segment that is not canonical
      base64url, and a signature that is not 64 bytes. */
  function Parse(token: string): Option<Parts>
  {
    var segments := Split(token, Dot);
    if |segments| != 3 then None
    else
      match (Base64Url.Decode(segments[0]), Base64Url.Decode(segments[1]), Base64Url.Decode(segments[2]))
      case (Some(h), Some(p), Some(raw)) =>
        (match FromRawRepresentation(raw)
         case Some(sig) => Some(Parts(h, p, sig))
         case None => None)
      case _ => None
  }

  /** Reading back the token `run()` builds gives the JSON of a header whose
      `alg` is ES256 and whose `kid` is the key id, the JSON of the claims, and
      the signature over the signing input. */
  lemma ParseRun(keyId: string, devId: string, now: real, f: Foreign)
    ensures var parts := Parse(Run(keyId, devId, now, f));
            && parts.Some?
            && parts.value.header == f.headerJson(Header(keyId))
            && parts.value.payload == f.payloadJson(RunClaims(devId, now, f))
            && parts.value.signature == f.sign(SignedData(keyId, devId, now, f))
  {
    var sig := f.sign(SignedData(keyId, devId, now, f));
    RawRepresentationIff(RawRepresentation(sig), sig);
  }

  /** Whatever `Parse` accepts is the assembly of the encodings of what it
      returns: a token is determined by its parts. */
  lemma ParseSound(token: string, parts: Parts)
    requires Parse(token) == Some(parts)
    ensures token == Assemble(EncodedUrl(parts.header), EncodedUrl(parts.payload),
                              EncodedUrl(RawRepresentation(parts.signature)))
  {
    var segments := Split(token, Dot);
    ParseSegments(token, parts);
    var raw := Base64Url.Decode(segments[2]).value;
    assert EncodedUrl(parts.header) == segments[0] by {
      Base64Url.DecodeIff(segments[0], parts.header);
    }
    assert EncodedUrl(parts.payload) == segments[1] by {
      Base64Url.DecodeIff(segments[1], parts.payload);
    }
    assert EncodedUrl(RawRepresentation(parts.signature)) == segments[2] by {
      Base64Url.DecodeIff(segments[2], raw);
      RawRepresentationIff(raw, parts.signature);
    }
    ThreeSegments(token, segments[0], segments[1], segments[2]);
  }

  /** What a successful parse found in each of the three segments. */
  lemma ParseSegments(token: string, parts: Parts)
    requires Parse(token) == Some(parts)
    ensures var segments := Split(token, Dot);
            && segments == [segments[0], segments[1], segments[2]]
            && Base64Url.Decode(segments[0]) == Some(parts.header)
            && Base64Url.Decode(segments[1]) == Some(parts.payload)
            && Base64Url.Decode(segments[2]).Some?
            && FromRawRepresentation(Base64Url.Decode(segments[2]).value) == Some(parts.signature)
  {
    var segments := Split(token, Dot);
    assert |segments| == 3;
  }

  /** A string that splits into three segments is their assembly. */
  lemma ThreeSegments(token: string, a: string, b: string, c: string)
    requires Split(token, Dot) == [a, b, c]
    ensures token == Assemble(a, b, c)
  {
    JoinSplit(token, Dot);
    JoinThree(a, b, c, Dot);
  }

  /** Two runs on the same inputs whose signing differs (ECDSA signing is
      randomised) agree on the header and payload segments, and on the bytes
      they sign. This holds by definition, since none of these depends on
      `sign`; it is stated to record the fact, not as a proof. */
  lemma HeaderPayloadReproducible(keyId: string, devId: string, now: real, f: Foreign, g: Foreign)
    requires f.headerJson == g.headerJson && f.payloadJson == g.payloadJson && f.expiry == g.expiry
    ensures var s := Split(Run(keyId, devId, now, f), Dot);
            var t := Split(Run(keyId, devId, now, g), Dot);
            s[0] == t[0] && s[1] == t[1]
    ensures SignedData(keyId, devId, now, f) == SignedData(keyId, devId, now, g)
  {
  }
}
