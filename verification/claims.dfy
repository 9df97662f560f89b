/**
 The claim sets and the signature value of the token
 (Sources/SwiftJWT/swiftJWT.swift, lines 11-27, and CryptoKit's
 `P256.Signing.ECDSASignature`). Instants are their `timeIntervalSince1970`,
 seconds since the Unix epoch, taken as exact reals.
 */
module Claims {
  import opened Wrappers
  import opened Base64

  /** The JWS algorithm identifier for ECDSA on P-256 with SHA-256
      (section 3.1 of RFC 7518). */
  const ES256: string := "ES256"

  /** The JOSE header. `alg` is a constant member with its value fixed here,
      not a constructor argument, so no caller can choose it. */
  datatype Header = Header(kid: string) {
    const alg: string := ES256
  }

  /** Whatever key id a header is built from, its `alg` is ES256 and its
      `kid` is that key id. This holds by the definition of `Header`; it is
      stated to record the fact, not as a proof. */
  lemma HeaderAlgFixed(keyId: string)
    ensures Header(keyId).alg == ES256 && Header(keyId).kid == keyId
  {
  }

  /** The claims: issuer, issued-at and expiry, the last two in seconds since
      the Unix epoch. */
  datatype Payload = Payload(iss: string, iat: int, exp: int)

  /** Swift's `Int(_: Double)`: drops the fractional part, rounding toward
      zero. */
  function TruncateToInt(x: real): (n: int)
    ensures x >= 0.0 ==> n >= 0 && n as real <= x < n as real + 1.0
    ensures x < 0.0 ==> n <= 0 && n as real - 1.0 < x <= n as real
  {
    if x >= 0.0 then x.Floor else -((-x).Floor)
  }

  /** Truncation never reverses the order of two instants. */
  lemma TruncateMonotonic(x: real, y: real)
    ensures x <= y ==> TruncateToInt(x) <= TruncateToInt(y)
  {
    if y < x || (x < 0.0 && y >= 0.0) {
    } else if x >= 0.0 {
      assert TruncateToInt(x) as real <= x <= y < TruncateToInt(y) as real + 1.0;
    } else {
      assert TruncateToInt(x) as real - 1.0 < x <= y <= TruncateToInt(y) as real;
    }
  }

  /** `Payload.init(iss:iat:exp:)`: the issuer is kept; issued-at and expiry
      are the instant `now` and the calendar's `expiry` instant, truncated to
      whole seconds. An expiry not before `now` gives `exp >= iat`, and one at
      least two seconds later gives `exp > iat`. */
  function NewPayload(iss: string, now: real, expiry: real): (p: Payload)
    ensures p.iss == iss
    ensures now >= 0.0 ==> p.iat as real <= now < p.iat as real + 1.0
    ensures now < 0.0 ==> p.iat as real - 1.0 < now <= p.iat as real
    ensures expiry >= 0.0 ==> p.exp as real <= expiry < p.exp as real + 1.0
    ensures expiry < 0.0 ==> p.exp as real - 1.0 < expiry <= p.exp as real
    ensures now <= expiry ==> p.iat <= p.exp
    ensures now + 2.0 <= expiry ==> p.iat < p.exp
  {
    TruncateMonotonic(now, expiry);
    Payload(iss, TruncateToInt(now), TruncateToInt(expiry))
  }

  /** Width in bytes of one P-256 signature component. */
  const CoordinateWidth: nat := 32

  /** One big-endian signature component, left-padded to the curve's width. */
  type Coordinate = s: seq<Byte> | |s| == CoordinateWidth witness seq(CoordinateWidth, _ => 0)

  /** An ES256 signature: the pair of integers (r, s). */
  datatype Signature = Signature(r: Coordinate, s: Coordinate)

  /** `rawRepresentation`: r followed by s, 64 bytes, the JWS form of an ECDSA
      signature (section 3.4 of RFC 7518), not an ASN.1 DER structure. */
  function RawRepresentation(sig: Signature): (raw: seq<Byte>)
    ensures |raw| == 2 * CoordinateWidth
    ensures raw[..CoordinateWidth] == sig.r && raw[CoordinateWidth..] == sig.s
  {
    sig.r + sig.s
  }

  /** `ECDSASignature(rawRepresentation:)`: accepts exactly 64 bytes and reads
      r from the first half and s from the second. */
  function FromRawRepresentation(raw: seq<Byte>): (r: Option<Signature>)
  {
    if |raw| != 2 * CoordinateWidth then None
    else Some(Signature(raw[..CoordinateWidth], raw[CoordinateWidth..]))
  }

  /** The raw form and its parser are inverse: a 64-byte string is the raw
      form of exactly one signature, and no other length is. */
  lemma RawRepresentationIff(raw: seq<Byte>, sig: Signature)
    ensures FromRawRepresentation(raw) == Some(sig) <==> RawRepresentation(sig) == raw
  {
    if RawRepresentation(sig) == raw {
      assert raw[..CoordinateWidth] == sig.r;
    }
  }
}
