/**
 Standard base64 as defined in section 4 of RFC 4648, the encoding Foundation's
 `Data.base64EncodedString()` produces: each 24-bit group of input is split into
 four 6-bit groups, each written as one character of the 64-character alphabet;
 a final group of one or two bytes is zero-filled to whole 6-bit groups and the
 output is padded with `=` to a multiple of four characters.

 The strict decoder is the encoder's partner: it accepts exactly the canonical
 encodings (section 3.5 of RFC 4648), so `Decode(s) == Some(d)` holds iff
 `Encode(d) == s`.
 */
module Base64 {
  import opened Wrappers

  /** An octet of input data. */
  type Byte = b: int | 0 <= b < 256

  /** A 6-bit group: the value one base64 character stands for. */
  type Sextet = v: int | 0 <= v < 64

  /** The padding character of section 4 of RFC 4648. */
  const Pad: char := '='

  /** Number of `=` characters that pad the encoding of `n` bytes. */
  function PadCount(n: nat): (k: nat)
    ensures k <= 2
    ensures (n + k) % 3 == 0
  {
    (3 - n % 3) % 3
  }

  /** A run of `k` padding characters. */
  function Padding(k: nat): (s: string)
    ensures |s| == k
    ensures forall i :: 0 <= i < k ==> s[i] == Pad
  {
    seq(k, _ => Pad)
  }

  // ---------------------------------------------------------------------------
  // Bytes <-> 6-bit groups
  // ---------------------------------------------------------------------------

  /** The four 6-bit groups of the 24-bit group `a b c`. */
  function Split3(a: Byte, b: Byte, c: Byte): (q: seq<Sextet>)
    ensures |q| == 4
  {
    [a / 4, (a % 4) * 16 + b / 16, (b % 16) * 4 + c / 64, c % 64]
  }

  /** The three 6-bit groups of `a b`, the last one zero-filled. */
  function Split2(a: Byte, b: Byte): (q: seq<Sextet>)
    ensures |q| == 3
  {
    [a / 4, (a % 4) * 16 + b / 16, (b % 16) * 4]
  }

  /** The two 6-bit groups of `a`, the last one zero-filled. */
  function Split1(a: Byte): (q: seq<Sextet>)
    ensures |q| == 2
  {
    [a / 4, (a % 4) * 16]
  }

  /** The three bytes of four 6-bit groups. */
  function Join4(w: Sextet, x: Sextet, y: Sextet, z: Sextet): (d: seq<Byte>)
    ensures |d| == 3
  {
    [w * 4 + x / 16, (x % 16) * 16 + y / 4, (y % 4) * 64 + z]
  }

  /** The two bytes of three 6-bit groups (the low two bits of `y` are fill). */
  function Join3(w: Sextet, x: Sextet, y: Sextet): (d: seq<Byte>)
    ensures |d| == 2
  {
    [w * 4 + x / 16, (x % 16) * 16 + y / 4]
  }

  /** The byte of two 6-bit groups (the low four bits of `x` are fill). */
  function Join2(w: Sextet, x: Sextet): (d: seq<Byte>)
    ensures |d| == 1
  {
    [w * 4 + x / 16]
  }

  /** Quotient and remainder of `hi * k + lo` by `k`, for the three bit-field
      widths the grouping uses. */
  lemma DivMod(hi: int, lo: int, k: int)
    requires k == 4 || k == 16 || k == 64
    requires 0 <= lo < k
    ensures (hi * k + lo) / k == hi && (hi * k + lo) % k == lo
  {
  }

  /** Joining inverts splitting a whole 24-bit group. */
  lemma GroupRoundTrip(a: Byte, b: Byte, c: Byte)
    ensures var q := Split3(a, b, c); Join4(q[0], q[1], q[2], q[3]) == [a, b, c]
  {
    var q := Split3(a, b, c);
    assert q[1] / 16 == a % 4 && q[1] % 16 == b / 16 by { DivMod(a % 4, b / 16, 16); }
    assert q[2] / 4 == b % 16 && q[2] % 4 == c / 64 by { DivMod(b % 16, c / 64, 4); }
    var d := Join4(q[0], q[1], q[2], q[3]);
    assert d[0] == (a / 4) * 4 + a % 4 == a;
    assert d[1] == (b / 16) * 16 + b % 16 == b;
    assert d[2] == (c / 64) * 64 + c % 64 == c;
  }

  /** Joining inverts splitting two bytes, and the two fill bits are zero. */
  lemma GroupRoundTrip2(a: Byte, b: Byte)
    ensures var q := Split2(a, b); q[2] % 4 == 0 && Join3(q[0], q[1], q[2]) == [a, b]
  {
    var q := Split2(a, b);
    assert q[1] / 16 == a % 4 && q[1] % 16 == b / 16 by { DivMod(a % 4, b / 16, 16); }
    assert q[2] / 4 == b % 16 && q[2] % 4 == 0 by { DivMod(b % 16, 0, 4); }
    var d := Join3(q[0], q[1], q[2]);
    assert d[0] == (a / 4) * 4 + a % 4 == a;
    assert d[1] == (b / 16) * 16 + b % 16 == b;
  }

  /** Joining inverts splitting one byte, and the four fill bits are zero. */
  lemma GroupRoundTrip1(a: Byte)
    ensures var q := Split1(a); q[1] % 16 == 0 && Join2(q[0], q[1]) == [a]
  {
    var q := Split1(a);
    assert q[1] / 16 == a % 4 && q[1] % 16 == 0 by { DivMod(a % 4, 0, 16); }
    var d := Join2(q[0], q[1]);
    assert d[0] == (a / 4) * 4 + a % 4 == a;
  }


  /** Splitting inverts joining a whole 24-bit group. */
  lemma GroupCanonical(w: Sextet, x: Sextet, y: Sextet, z: Sextet)
    ensures var d := Join4(w, x, y, z); Split3(d[0], d[1], d[2]) == [w, x, y, z]
  {
    var d := Join4(w, x, y, z);
    assert d[0] / 4 == w && d[0] % 4 == x / 16 by { DivMod(w, x / 16, 4); }
    assert d[1] / 16 == x % 16 && d[1] % 16 == y / 4 by { DivMod(x % 16, y / 4, 16); }
    assert d[2] / 64 == y % 4 && d[2] % 64 == z by { DivMod(y % 4, z, 64); }
    var q := Split3(d[0], d[1], d[2]);
    assert q[1] == (x / 16) * 16 + x % 16 == x;
    assert q[2] == (y / 4) * 4 + y % 4 == y;
  }

  /** Splitting inverts joining two bytes, provided the two fill bits are zero. */
  lemma GroupCanonical2(w: Sextet, x: Sextet, y: Sextet)
    requires y % 4 == 0
    ensures var d := Join3(w, x, y); Split2(d[0], d[1]) == [w, x, y]
  {
    var d := Join3(w, x, y);
    assert d[0] / 4 == w && d[0] % 4 == x / 16 by { DivMod(w, x / 16, 4); }
    assert d[1] / 16 == x % 16 && d[1] % 16 == y / 4 by { DivMod(x % 16, y / 4, 16); }
    var q := Split2(d[0], d[1]);
    assert q[1] == (x / 16) * 16 + x % 16 == x;
    assert q[2] == (y / 4) * 4 == y;
  }

  /** Splitting inverts joining one byte, provided the four fill bits are zero. */
  lemma GroupCanonical1(w: Sextet, x: Sextet)
    requires x % 16 == 0
    ensures var d := Join2(w, x); Split1(d[0]) == [w, x]
  {
    var d := Join2(w, x);
    assert d[0] / 4 == w && d[0] % 4 == x / 16 by { DivMod(w, x / 16, 4); }
    var q := Split1(d[0]);
    assert q[1] == (x / 16) * 16 == x;
  }

  /** The 6-bit groups of `d`, most significant bits first; a final partial
      24-bit group is filled with zero bits up to a whole 6-bit group, and no
      padding groups are produced. */
  function Sextets(d: seq<Byte>): (q: seq<Sextet>)
    ensures |q| == (4 * |d| + 2) / 3
    decreases |d|
  {
    if |d| == 0 then []
    else if |d| == 1 then Split1(d[0])
    else if |d| == 2 then Split2(d[0], d[1])
    else Split3(d[0], d[1], d[2]) + Sextets(d[3..])
  }

  /** Reassembles bytes from 6-bit groups. A lone trailing group cannot carry a
      byte, and the zero fill of a final partial group must really be zero;
      both are rejected. */
  function FromSextets(q: seq<Sextet>): (r: Option<seq<Byte>>)
    ensures |q| % 4 == 1 ==> r.None?
    ensures r.Some? ==> |r.value| == 3 * |q| / 4
    decreases |q|
  {
    if |q| == 0 then Some([])
    else if |q| == 1 then None
    else if |q| == 2 then
      if q[1] % 16 != 0 then None else Some(Join2(q[0], q[1]))
    else if |q| == 3 then
      if q[2] % 4 != 0 then None else Some(Join3(q[0], q[1], q[2]))
    else
      QuarterStep(|q[4..]|);
      match FromSextets(q[4..])
      case None => None
      case Some(rest) => Some(Join4(q[0], q[1], q[2], q[3]) + rest)
  }

  /** Splitting into 6-bit groups loses nothing: reassembly gives the bytes back. */
  lemma {:induction false} SextetsRoundTrip(d: seq<Byte>)
    ensures FromSextets(Sextets(d)) == Some(d)
    decreases |d|
  {
    if |d| == 1 {
      GroupRoundTrip1(d[0]);
      assert d == [d[0]];
    } else if |d| == 2 {
      GroupRoundTrip2(d[0], d[1]);
      assert d == [d[0], d[1]];
    } else if |d| >= 3 {
      var q, g := Sextets(d), Split3(d[0], d[1], d[2]);
      assert q == g + Sextets(d[3..]);
      assert q[..4] == g && q[4..] == Sextets(d[3..]);
      assert q[0] == g[0] && q[1] == g[1] && q[2] == g[2] && q[3] == g[3];
      SextetsRoundTrip(d[3..]);
      GroupRoundTrip(d[0], d[1], d[2]);
      assert FromSextets(q) == Some(Join4(g[0], g[1], g[2], g[3]) + d[3..]);
      assert d == [d[0], d[1], d[2]] + d[3..];
    }
  }

  /** Four more 6-bit groups are three more bytes and leave the remainder
      modulo four unchanged. */
  lemma QuarterStep(n: nat)
    ensures (n + 4) % 4 == n % 4 && 3 * (n + 4) / 4 == 3 + 3 * n / 4
  {
  }

  /** Reassembly accepts only the groups that splitting produces. */
  lemma {:induction false} FromSextetsCanonical(q: seq<Sextet>, d: seq<Byte>)
    requires FromSextets(q) == Some(d)
    ensures Sextets(d) == q
    decreases |q|
  {
    if |q| == 2 {
      GroupCanonical1(q[0], q[1]);
    } else if |q| == 3 {
      GroupCanonical2(q[0], q[1], q[2]);
    } else if |q| >= 4 {
      var rest := FromSextets(q[4..]).value;
      FromSextetsCanonical(q[4..], rest);
      GroupCanonical(q[0], q[1], q[2], q[3]);
      var j := Join4(q[0], q[1], q[2], q[3]);
      assert d == j + rest;
      assert d[0] == j[0] && d[1] == j[1] && d[2] == j[2] && d[3..] == rest;
      assert Sextets(d) == Split3(j[0], j[1], j[2]) + Sextets(rest);
      assert q == [q[0], q[1], q[2], q[3]] + q[4..];
    }
  }

  // ---------------------------------------------------------------------------
  // The standard alphabet (Table 1 of RFC 4648)
  // ---------------------------------------------------------------------------

  /** The character of the standard alphabet for value `v`. */
  function StdChar(v: Sextet): (c: char)
    ensures c != Pad && c != '-' && c != '_' && c != '.'
    ensures c as int < 0x80
    ensures c == '+' <==> v == 62
    ensures c == '/' <==> v == 63
  {
    if v < 26 then ('A' as int + v) as char
    else if v < 52 then ('a' as int + (v - 26)) as char
    else if v < 62 then ('0' as int + (v - 52)) as char
    else if v == 62 then '+'
    else '/'
  }

  /** The value of a standard-alphabet character, `None` for any other character. */
  function StdValue(c: char): (r: Option<Sextet>)
    ensures r.Some? ==> StdChar(r.value) == c
  {
    if 'A' <= c <= 'Z' then Some(c as int - 'A' as int)
    else if 'a' <= c <= 'z' then Some(c as int - 'a' as int + 26)
    else if '0' <= c <= '9' then Some(c as int - '0' as int + 52)
    else if c == '+' then Some(62)
    else if c == '/' then Some(63)
    else None
  }

  /** Every alphabet character decodes to the value it was written for. */
  lemma StdValueOfChar(v: Sextet)
    ensures StdValue(StdChar(v)) == Some(v)
  {
  }

  /** The characters for a sequence of 6-bit groups. */
  function StdChars(q: seq<Sextet>): (s: string)
    ensures |s| == |q|
  {
    seq(|q|, i requires 0 <= i < |q| => StdChar(q[i]))
  }

  /** The values of the characters of `s`, or `None` if one is outside the alphabet. */
  function StdValues(s: string): (r: Option<seq<Sextet>>)
    ensures r.Some? ==> |r.value| == |s|
    decreases |s|
  {
    if |s| == 0 then Some([])
    else
      match StdValue(s[0])
      case None => None
      case Some(v) =>
        match StdValues(s[1..])
        case None => None
        case Some(vs) => Some([v] + vs)
  }

  /** `StdValues` inverts `StdChars`, and accepts nothing else. */
  lemma {:induction false} StdValuesIff(s: string, q: seq<Sextet>)
    ensures StdValues(s) == Some(q) <==> StdChars(q) == s
    decreases |s|
  {
    if |s| > 0 && |q| == |s| {
      StdValuesIff(s[1..], q[1..]);
      StdValueOfChar(q[0]);
      assert StdChars(q)[1..] == StdChars(q[1..]);
      assert q == [q[0]] + q[1..];
    }
  }

  // ---------------------------------------------------------------------------
  // Encoding and decoding
  // ---------------------------------------------------------------------------

  /** `Data.base64EncodedString()`: the standard alphabet, padded with `=`. */
  function Encode(d: seq<Byte>): (s: string)
    ensures |s| == 4 * ((|d| + 2) / 3)
    ensures forall i :: 0 <= i < |s| ==> (s[i] == Pad <==> i >= (4 * |d| + 2) / 3)
    ensures forall i :: 0 <= i < |s| && s[i] != Pad ==> StdValue(s[i]).Some?
  {
    var q := Sextets(d);
    var s := StdChars(q) + Padding(PadCount(|d|));
    EncodedLength(|d|, |s|);
    forall i | 0 <= i < |s|
      ensures s[i] == Pad <==> i >= |q|
      ensures s[i] != Pad ==> StdValue(s[i]).Some?
    {
      if i < |q| {
        assert s[i] == StdChar(q[i]);
        StdValueOfChar(q[i]);
      }
    }
    s
  }

  /** Removes the (at most two) trailing padding characters. */
  function TrimPadding(s: string): (t: string)
    ensures |s| - 2 <= |t| <= |s|
    ensures s == t + Padding(|s| - |t|)
  {
    if |s| >= 2 && s[|s| - 2] == Pad && s[|s| - 1] == Pad then s[..|s| - 2]
    else if |s| >= 1 && s[|s| - 1] == Pad then s[..|s| - 1]
    else s
  }

  /** Strict standard base64 decoding: the length must be a multiple of four,
      padding may only close the string, and the zero fill must be zero. */
  function Decode(s: string): (r: Option<seq<Byte>>)
  {
    if |s| % 4 != 0 then None
    else
      match StdValues(TrimPadding(s))
      case None => None
      case Some(q) => FromSextets(q)
  }

  /** Trimming undoes the padding of a string that has no `=` of its own. */
  lemma TrimPaddingOf(t: string, k: nat)
    requires k <= 2
    requires forall i :: 0 <= i < |t| ==> t[i] != Pad
    ensures TrimPadding(t + Padding(k)) == t
  {
    var s := t + Padding(k);
    if k == 1 {
      assert s[|s| - 1] == Pad;
      assert |s| >= 2 ==> s[|s| - 2] == t[|t| - 1];
      assert s[..|s| - 1] == t;
    } else if k == 2 {
      assert s[..|s| - 2] == t;
    } else {
      assert s == t;
    }
  }

  /** The standard encoding is the alphabet characters of the 6-bit groups,
      followed by the padding. */
  lemma EncodeShape(d: seq<Byte>)
    ensures Encode(d) == StdChars(Sextets(d)) + Padding(PadCount(|d|))
  {
  }

  /** Decoding inverts encoding: no two byte strings share an encoding. */
  lemma EncodeRoundTrip(d: seq<Byte>)
    ensures Decode(Encode(d)) == Some(d)
  {
    EncodeShape(d);
    PaddedRoundTrip(d);
  }

  /** `EncodeRoundTrip`, stated on the shape of the encoding. */
  lemma PaddedRoundTrip(d: seq<Byte>)
    ensures Decode(StdChars(Sextets(d)) + Padding(PadCount(|d|))) == Some(d)
  {
    var q := Sextets(d);
    var t := StdChars(q);
    var s := t + Padding(PadCount(|d|));
    EncodedLength(|d|, |s|);
    assert TrimPadding(s) == t by {
      assert forall i :: 0 <= i < |t| ==> t[i] == StdChar(q[i]);
      TrimPaddingOf(t, PadCount(|d|));
    }
    assert StdValues(t) == Some(q) by { StdValuesIff(t, q); }
    assert FromSextets(q) == Some(d) by { SextetsRoundTrip(d); }
    assert Decode(s) == FromSextets(q);
  }

  /** The decoder accepts exactly the canonical encodings. */
  lemma DecodeIff(s: string, d: seq<Byte>)
    ensures Decode(s) == Some(d) <==> Encode(d) == s
  {
    if Encode(d) == s {
      EncodeRoundTrip(d);
    }
    if Decode(s) == Some(d) {
      DecodeCanonical(s, d);
    }
  }

  /** A padded encoding of `n` bytes is a whole number of 4-character groups. */
  lemma EncodedLength(n: nat, len: int)
    requires len == (4 * n + 2) / 3 + PadCount(n)
    ensures len == 4 * ((n + 2) / 3) && len % 4 == 0
  {
    LengthCases(n);
  }


  /** Padding `body` data characters up to a multiple of four adds exactly
      the padding of the `n` bytes they encode. */
  lemma RepaddingLength(n: nat, body: int)
    requires body == (4 * n + 2) / 3
    ensures (4 - body % 4) % 4 == PadCount(n)
  {
    LengthCases(n);
    var m := n / 3;
    ShiftMod(m, body - 4 * m);
  }


  /** The length arithmetic of padding: a padded encoding of `n` bytes has
      `(4 * n + 2) / 3` data characters and `PadCount(n)` padding characters. */
  lemma PaddedLength(n: nat, body: nat, k: nat)
    requires body == (4 * n + 2) / 3
    requires k <= 2
    ensures (body + k) % 4 == 0 <==> k == PadCount(n)
  {
    LengthCases(n);
    var m := n / 3;
    ShiftMod(m, body - 4 * m + k);
  }

  /** Whole groups of four do not change a remainder modulo four. */
  lemma ShiftMod(m: int, x: int)
    ensures (4 * m + x) % 4 == x % 4
  {
  }

  /** The three cases of the length arithmetic, by the remainder of `n`
      modulo three: data characters, groups of four, and padding. */
  lemma LengthCases(n: nat)
    ensures var m := n / 3;
            || (n % 3 == 0 && (4 * n + 2) / 3 == 4 * m && (n + 2) / 3 == m && PadCount(n) == 0)
            || (n % 3 == 1 && (4 * n + 2) / 3 == 4 * m + 2 && (n + 2) / 3 == m + 1 && PadCount(n) == 2)
            || (n % 3 == 2 && (4 * n + 2) / 3 == 4 * m + 3 && (n + 2) / 3 == m + 1 && PadCount(n) == 1)
  {
    var m, r := n / 3, n % 3;
    assert n == 3 * m + r;
    assert 4 * n + 2 == 3 * (4 * m) + (4 * r + 2);
    assert n + 2 == 3 * m + (r + 2);
  }


  /** Whatever the decoder accepts is the encoding of what it returns. */
  lemma DecodeCanonical(s: string, d: seq<Byte>)
    ensures Decode(s) == Some(d) ==> Encode(d) == s
  {
    PaddedCanonical(s, d);
    EncodeShape(d);
  }

  /** `DecodeCanonical`, stated on the shape of the encoding. */
  lemma PaddedCanonical(s: string, d: seq<Byte>)
    ensures Decode(s) == Some(d) ==> StdChars(Sextets(d)) + Padding(PadCount(|d|)) == s
  {
    if Decode(s) != Some(d) {
      return;
    }
    var t := TrimPadding(s);
    var q := StdValues(t).value;
    assert FromSextets(q) == Some(d);
    assert StdChars(q) == t by { StdValuesIff(t, q); }
    assert Sextets(d) == q by { FromSextetsCanonical(q, d); }
    PaddedOfLength(s, t, |d|);
  }

  /** A string of whole groups of four that is `t` followed by at most two
      `=`, where `t` has the data length of `n` bytes, carries exactly the
      padding of `n` bytes. */
  lemma PaddedOfLength(s: string, t: string, n: nat)
    requires |s| % 4 == 0 && |s| - 2 <= |t| <= |s|
    requires s == t + Padding(|s| - |t|)
    requires |t| == (4 * n + 2) / 3
    ensures s == t + Padding(PadCount(n))
  {
    PaddedLength(n, |t|, |s| - |t|);
  }

  // ---------------------------------------------------------------------------
  // Test vectors of section 10 of RFC 4648
  // ---------------------------------------------------------------------------

  /** The empty input encodes to the empty string, and "f" to "Zg==". */
  lemma Rfc4648FVector()
    ensures Encode([]) == ""
    ensures Encode([102]) == "Zg=="
  {
    assert Sextets([102]) == [25, 32];
    assert StdChars([25, 32]) == "Zg";
    EncodeShape([102]);
    assert Padding(2) == "==";
  }

  /** "fo" encodes to "Zm8=". */
  lemma Rfc4648FoVector()
    ensures Encode([102, 111]) == "Zm8="
  {
    assert Sextets([102, 111]) == [25, 38, 60];
    assert StdChars([25, 38, 60]) == "Zm8";
    EncodeShape([102, 111]);
    assert Padding(1) == "=";
  }

  /** "foo" encodes to "Zm9v". */
  lemma Rfc4648FooVector()
    ensures Encode([102, 111, 111]) == "Zm9v"
  {
    assert Sextets([102, 111, 111]) == [25, 38, 61, 47];
    assert StdChars([25, 38, 61, 47]) == "Zm9v";
    EncodeShape([102, 111, 111]);
    assert Padding(0) == "";
  }

  /** "foob" encodes to "Zm9vYg==". */
  lemma Rfc4648FoobVector()
    ensures Encode([102, 111, 111, 98]) == "Zm9vYg=="
  {
    var d: seq<Byte> := [102, 111, 111, 98];
    assert d[3..] == [98];
    assert Sextets(d) == [25, 38, 61, 47] + [24, 32];
    assert StdChars([25, 38, 61, 47, 24, 32]) == "Zm9vYg";
    EncodeShape(d);
    assert Padding(2) == "==";
  }

  /** "fooba" encodes to "Zm9vYmE=". */
  lemma Rfc4648FoobaVector()
    ensures Encode([102, 111, 111, 98, 97]) == "Zm9vYmE="
  {
    var d: seq<Byte> := [102, 111, 111, 98, 97];
    assert d[3..] == [98, 97];
    assert Sextets(d) == [25, 38, 61, 47] + [24, 38, 4];
    assert StdChars([25, 38, 61, 47, 24, 38, 4]) == "Zm9vYmE";
    EncodeShape(d);
    assert Padding(1) == "=";
  }

  /** "foobar" encodes to "Zm9vYmFy". */
  lemma Rfc4648FoobarVector()
    ensures Encode([102, 111, 111, 98, 97, 114]) == "Zm9vYmFy"
  {
    var d: seq<Byte> := [102, 111, 111, 98, 97, 114];
    assert d[3..] == [98, 97, 114];
    assert d[3..][3..] == [];
    assert Sextets(d) == [25, 38, 61, 47] + [24, 38, 5, 50];
    assert StdChars([25, 38, 61, 47, 24, 38, 5, 50]) == "Zm9vYmFy";
    EncodeShape(d);
    assert Padding(0) == "";
  }
}
