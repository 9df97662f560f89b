/**
 `Data.base64EncodedURL()` (Sources/SwiftJWT/swiftJWT.swift, line 7): the
 standard padded encoding, then `+` replaced by `-`, then `/` replaced by `_`,
 then every `=` removed. This is the base64url encoding of section 5 of
 RFC 4648 with the padding omitted, as JWS requires (section 2 of RFC 7515);
 the lemmas here prove that the three-step pipeline equals that direct
 definition, and derive the alphabet, length and injectivity properties.
 */
module Base64Url {
  import opened Wrappers
  import opened Base64

  // ---------------------------------------------------------------------------
  // The source's pipeline
  // ---------------------------------------------------------------------------

  /** `String.replacingOccurrences(of:with:)` for a one-character target `c`:
      every occurrence of `c` in `s` is replaced by `replacement`, everything
      else is kept in order (`ReplaceInPlace` and `ReplaceByNothing` state
      this position by position). Characters are compared as Unicode scalars;
      Foundation compares composed character sequences, which is the same
      thing for the ASCII strings the encoder produces. */
  function ReplaceOccurrences(s: string, c: char, replacement: string): (r: string)
    ensures forall x :: x in r <==> (x in s && x != c) || (c in s && x in replacement)
    decreases |s|
  {
    if |s| == 0 then ""
    else (if s[0] == c then replacement else [s[0]]) + ReplaceOccurrences(s[1..], c, replacement)
  }

  /** With a one-character replacement, each character is mapped in place. */
  lemma {:induction false} ReplaceInPlace(s: string, c: char, replacement: string)
    requires |replacement| == 1
    ensures var r := ReplaceOccurrences(s, c, replacement);
            |r| == |s| && forall i :: 0 <= i < |s| ==> r[i] == (if s[i] == c then replacement[0] else s[i])
    decreases |s|
  {
    if |s| > 0 {
      ReplaceInPlace(s[1..], c, replacement);
    }
  }

  /** The number of occurrences of `c` in `s`. */
  function Occurrences(s: string, c: char): (n: nat)
    ensures n <= |s|
    decreases |s|
  {
    if |s| == 0 then 0 else (if s[0] == c then 1 else 0) + Occurrences(s[1..], c)
  }

  /** The count is the multiplicity of `c` in the multiset of `s`. */
  lemma {:induction false} OccurrencesIsMultiplicity(s: string, c: char)
    ensures Occurrences(s, c) == multiset(s)[c]
    decreases |s|
  {
    if |s| > 0 {
      OccurrencesIsMultiplicity(s[1..], c);
      assert s == [s[0]] + s[1..];
    }
  }

  /** With an empty replacement, the characters other than `c` are kept in
      order, the one at position `i` moving left by the number of `c` before
      it, and nothing else remains. */
  lemma {:induction false} ReplaceByNothing(s: string, c: char)
    ensures var r := ReplaceOccurrences(s, c, "");
            && |r| == |s| - Occurrences(s, c)
            && forall i :: 0 <= i < |s| && s[i] != c ==>
                 var k := i - Occurrences(s[..i], c); 0 <= k < |r| && r[k] == s[i]
    decreases |s|
  {
    if |s| > 0 {
      var r, rest := ReplaceOccurrences(s, c, ""), ReplaceOccurrences(s[1..], c, "");
      var b := if s[0] == c then 1 else 0;
      ReplaceByNothing(s[1..], c);
      assert r == (if s[0] == c then "" else [s[0]]) + rest;
      forall i | 0 <= i < |s| && s[i] != c
        ensures var k := i - Occurrences(s[..i], c); 0 <= k < |r| && r[k] == s[i]
      {
        if i == 0 {
          assert Occurrences(s[..0], c) == 0;
        } else {
          assert s[..i][0] == s[0] && s[..i][1..] == s[1..][..i - 1];
          var k' := (i - 1) - Occurrences(s[1..][..i - 1], c);
          assert 0 <= k' < |rest| && rest[k'] == s[1..][i - 1];
          assert i - Occurrences(s[..i], c) == k' + 1 - b;
        }
      }
    }
  }

  /** The URL-safe substitution: `+` becomes `-`, then `/` becomes `_`, each in
      place; every other character is kept. */
  function Substitute(s: string): (r: string)
    ensures '+' !in r && '/' !in r
    ensures forall x :: x in r && x != '-' && x != '_' ==> x in s
    ensures |r| == |s|
    ensures forall i :: 0 <= i < |s| ==>
              r[i] == (if s[i] == '+' then '-' else if s[i] == '/' then '_' else s[i])
  {
    ReplaceInPlace(s, '+', "-");
    ReplaceInPlace(ReplaceOccurrences(s, '+', "-"), '/', "_");
    ReplaceOccurrences(ReplaceOccurrences(s, '+', "-"), '/', "_")
  }

  /** Removal of every padding character: the other characters are kept in
      order, each moving left by the number of `=` before it. */
  function StripPadding(s: string): (r: string)
    ensures forall x :: x in r <==> x in s && x != Pad
    ensures |r| == |s| - Occurrences(s, Pad)
    ensures forall i :: 0 <= i < |s| && s[i] != Pad ==>
              var k := i - Occurrences(s[..i], Pad); 0 <= k < |r| && r[k] == s[i]
  {
    ReplaceByNothing(s, Pad);
    ReplaceOccurrences(s, Pad, "")
  }

  /** `Data.base64EncodedURL()`: the three replacements applied in order to
      the standard encoding (that is, `StripPadding(Substitute(Encode(d)))`).
      The result is unpadded base64url: the section-5 alphabet characters of
      the bytes' 6-bit groups. */
  function EncodedUrl(d: seq<Byte>): (r: string)
    ensures r == UrlChars(Sextets(d))
    ensures |r| == (4 * |d| + 2) / 3
    ensures forall i :: 0 <= i < |r| ==> UrlValue(r[i]).Some?
    ensures '+' !in r && '/' !in r && Pad !in r && '.' !in r
  {
    var r := ReplaceOccurrences(ReplaceOccurrences(ReplaceOccurrences(Encode(d), '+', "-"), '/', "_"), Pad, "");
    assert r == StripPadding(Substitute(Encode(d)));
    PipelineIsUrlChars(d);
    var q := Sextets(d);
    forall i | 0 <= i < |r| ensures UrlValue(r[i]).Some? {
      UrlValueOfChar(q[i]);
    }
    r
  }

  // ---------------------------------------------------------------------------
  // The base64url alphabet (Table 2 of RFC 4648)
  // ---------------------------------------------------------------------------

  /** The URL-safe alphabet: the standard one with `-` for 62 and `_` for 63. */
  function UrlChar(v: Sextet): (c: char)
    ensures c != '+' && c != '/' && c != Pad && c != '.'
    ensures c == '-' <==> v == 62
    ensures c == '_' <==> v == 63
    ensures c as int < 0x80
  {
    if v == 62 then '-'
    else if v == 63 then '_'
    else StdChar(v)
  }

  /** The value of a URL-safe alphabet character, `None` for any other character. */
  function UrlValue(c: char): (r: Option<Sextet>)
    ensures r.Some? ==> UrlChar(r.value) == c
  {
    if c == '-' then Some(62)
    else if c == '_' then Some(63)
    else if c == '+' || c == '/' then None
    else StdValue(c)
  }

  /** Every URL-safe character decodes to the value it was written for. */
  lemma UrlValueOfChar(v: Sextet)
    ensures UrlValue(UrlChar(v)) == Some(v)
  {
    StdValueOfChar(v);
  }

  /** The URL-safe characters for a sequence of 6-bit groups. */
  function UrlChars(q: seq<Sextet>): (s: string)
    ensures |s| == |q|
  {
    seq(|q|, i requires 0 <= i < |q| => UrlChar(q[i]))
  }

  /** The values of the characters of `s`, or `None` if one is outside the
      URL-safe alphabet. */
  function UrlValues(s: string): (r: Option<seq<Sextet>>)
    ensures r.Some? ==> |r.value| == |s|
    decreases |s|
  {
    if |s| == 0 then Some([])
    else
      match UrlValue(s[0])
      case None => None
      case Some(v) =>
        match UrlValues(s[1..])
        case None => None
        case Some(vs) => Some([v] + vs)
  }

  /** `UrlValues` inverts `UrlChars`, and accepts nothing else. */
  lemma {:induction false} UrlValuesIff(s: string, q: seq<Sextet>)
    ensures UrlValues(s) == Some(q) <==> UrlChars(q) == s
    decreases |s|
  {
    if |s| > 0 && |q| == |s| {
      UrlValuesIff(s[1..], q[1..]);
      UrlValueOfChar(q[0]);
      assert UrlChars(q)[1..] == UrlChars(q[1..]);
      assert q == [q[0]] + q[1..];
    }
  }

  // ---------------------------------------------------------------------------
  // Facts about ReplaceOccurrences
  // ---------------------------------------------------------------------------

  /** Replacing in a concatenation replaces in each part. */
  lemma {:induction false} ReplaceAppend(a: string, b: string, c: char, replacement: string)
    ensures ReplaceOccurrences(a + b, c, replacement)
         == ReplaceOccurrences(a, c, replacement) + ReplaceOccurrences(b, c, replacement)
    decreases |a|
  {
    if |a| > 0 {
      assert (a + b)[0] == a[0];
      assert (a + b)[1..] == a[1..] + b;
      ReplaceAppend(a[1..], b, c, replacement);
    } else {
      assert a + b == b;
    }
  }

  /** A string without the target is left unchanged. */
  lemma {:induction false} ReplaceAbsent(s: string, c: char, replacement: string)
    requires c !in s
    ensures ReplaceOccurrences(s, c, replacement) == s
    decreases |s|
  {
    if |s| > 0 {
      ReplaceAbsent(s[1..], c, replacement);
      assert s == [s[0]] + s[1..];
    }
  }

  /** Removing every padding character from a run of them leaves nothing. */
  lemma {:induction false} StripPaddingOfPadding(k: nat)
    ensures StripPadding(Padding(k)) == ""
  {
    if k > 0 {
      assert Padding(k)[1..] == Padding(k - 1);
      StripPaddingOfPadding(k - 1);
    }
  }

  /** The URL-safe substitution maps standard characters to URL-safe ones. */
  lemma SubstituteStdChars(q: seq<Sextet>)
    ensures Substitute(StdChars(q)) == UrlChars(q)
  {
    var r := Substitute(StdChars(q));
    forall i | 0 <= i < |q| ensures r[i] == UrlChar(q[i]) {
      assert StdChars(q)[i] == StdChar(q[i]);
    }
  }

  /** The source's three replacements turn the padded standard encoding into
      the URL-safe characters of the same 6-bit groups. */
  lemma PipelineIsUrlChars(d: seq<Byte>)
    ensures StripPadding(Substitute(Encode(d))) == UrlChars(Sextets(d))
  {
    var q := Sextets(d);
    var pad := Padding(PadCount(|d|));
    EncodeShape(d);
    ReplaceAppend(StdChars(q), pad, '+', "-");
    ReplaceAbsent(pad, '+', "-");
    ReplaceAppend(ReplaceOccurrences(StdChars(q), '+', "-"), pad, '/', "_");
    ReplaceAbsent(pad, '/', "_");
    assert Substitute(Encode(d)) == Substitute(StdChars(q)) + pad;
    SubstituteStdChars(q);
    ReplaceAppend(UrlChars(q), pad, Pad, "");
    ReplaceAbsent(UrlChars(q), Pad, "");
    StripPaddingOfPadding(PadCount(|d|));
  }

  // ---------------------------------------------------------------------------
  // Decoding: the partner of EncodedUrl
  // ---------------------------------------------------------------------------

  /** Strict unpadded base64url decoding: only URL-safe characters, a length
      that is not 1 modulo 4, and zero fill bits. */
  function Decode(s: string): (r: Option<seq<Byte>>)
  {
    match UrlValues(s)
    case None => None
    case Some(q) => FromSextets(q)
  }

  /** The decoder accepts exactly the encodings, and returns what was encoded. */
  lemma DecodeIff(s: string, d: seq<Byte>)
    ensures Decode(s) == Some(d) <==> EncodedUrl(d) == s
  {
    var q := Sextets(d);
    if EncodedUrl(d) == s {
      UrlValuesIff(s, q);
      SextetsRoundTrip(d);
    }
    if Decode(s) == Some(d) {
      var q' := UrlValues(s).value;
      UrlValuesIff(s, q');
      FromSextetsCanonical(q', d);
    }
  }

  /** Distinct byte strings have distinct encodings: stripping the padding
      loses no information. */
  lemma EncodedUrlInjective(a: seq<Byte>, b: seq<Byte>)
    ensures EncodedUrl(a) == EncodedUrl(b) ==> a == b
  {
    if EncodedUrl(a) == EncodedUrl(b) {
      DecodeIff(EncodedUrl(a), a);
      DecodeIff(EncodedUrl(a), b);
    }
  }

  /** A 64-byte raw ES256 signature always encodes to 86 characters. */
  lemma SignatureSegmentLength(d: seq<Byte>)
    requires |d| == 64
    ensures |EncodedUrl(d)| == 86
  {
  }

  // ---------------------------------------------------------------------------
  // Recovering the standard encoding
  // ---------------------------------------------------------------------------

  /** Appends the `=` characters that make the length a multiple of four. */
  function RestorePadding(s: string): (r: string)
    ensures |r| % 4 == 0
  {
    s + Padding((4 - |s| % 4) % 4)
  }

  /** Undoes the URL-safe substitution: `-` becomes `+`, then `_` becomes `/`. */
  function Unsubstitute(s: string): (r: string)
    ensures '-' !in r && '_' !in r
    ensures forall x :: x in r && x != '+' && x != '/' ==> x in s
    ensures |r| == |s|
    ensures forall i :: 0 <= i < |s| ==>
              r[i] == (if s[i] == '-' then '+' else if s[i] == '_' then '/' else s[i])
  {
    ReplaceInPlace(s, '-', "+");
    ReplaceInPlace(ReplaceOccurrences(s, '-', "+"), '_', "/");
    ReplaceOccurrences(ReplaceOccurrences(s, '-', "+"), '_', "/")
  }

  /** The inverse substitution maps URL-safe characters back to standard ones. */
  lemma UnsubstituteUrlChars(q: seq<Sextet>)
    ensures Unsubstitute(UrlChars(q)) == StdChars(q)
  {
    var r := Unsubstitute(UrlChars(q));
    forall i | 0 <= i < |q| ensures r[i] == StdChar(q[i]) {
      assert UrlChars(q)[i] == UrlChar(q[i]);
    }
  }

  /** Re-padding and undoing the substitution gives back the standard encoding,
      so a standard base64 decoder recovers the bytes. */
  lemma RepaddedStandardDecode(d: seq<Byte>)
    ensures Unsubstitute(RestorePadding(EncodedUrl(d))) == Encode(d)
    ensures Base64.Decode(Unsubstitute(RestorePadding(EncodedUrl(d)))) == Some(d)
  {
    RepaddedIsStandard(d);
    EncodeRoundTrip(d);
  }

  /** The repadded, unsubstituted URL-safe encoding is the standard one. */
  lemma RepaddedIsStandard(d: seq<Byte>)
    ensures Unsubstitute(RestorePadding(EncodedUrl(d))) == Encode(d)
  {
    RepaddedUrlChars(EncodedUrl(d), Sextets(d), |d|);
    EncodeShape(d);
  }

  /** The same, for the characters `u` of the 6-bit groups `q` of `n` bytes. */
  lemma RepaddedUrlChars(u: string, q: seq<Sextet>, n: nat)
    requires u == UrlChars(q) && |q| == (4 * n + 2) / 3
    ensures Unsubstitute(RestorePadding(u)) == StdChars(q) + Padding(PadCount(n))
  {
    RepaddingLength(n, |u|);
    assert RestorePadding(u) == u + Padding(PadCount(n));
    UnsubstitutePadded(q, PadCount(n));
  }

  /** Undoing the substitution leaves the padding alone. */
  lemma UnsubstitutePadded(q: seq<Sextet>, k: nat)
    ensures Unsubstitute(UrlChars(q) + Padding(k)) == StdChars(q) + Padding(k)
  {
    var u := UrlChars(q) + Padding(k);
    var r := Unsubstitute(u);
    forall i | 0 <= i < |u| ensures r[i] == (StdChars(q) + Padding(k))[i] {
      if i < |q| {
        assert u[i] == UrlChar(q[i]);
      } else {
        assert u[i] == Pad;
      }
    }
  }

  /** The two bytes 0xfb 0xff, whose 6-bit groups are 62, 63 and 60, encode to
      "-_8": both substituted characters appear, and the `=` is gone. */
  lemma UrlSafeVector()
    ensures EncodedUrl([0xfb, 0xff]) == "-_8"
  {
    assert Sextets([0xfb, 0xff]) == [62, 63, 60];
    assert UrlChars([62, 63, 60]) == "-_8";
  }
}
