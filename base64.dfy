/**
 * Base 64 encoding with the standard alphabet and '=' padding, as defined in
 * section 4 of RFC 4648. This is what Python's `base64.b64encode` computes,
 * and so what `format_digest` in demo/generate-signatures.py returns.
 *
 * Encode works on 3-byte groups, each giving four characters of the 64-symbol
 * alphabet; a final group of one or two bytes is padded with "==" or "=".
 * Decode is the strict inverse: it accepts exactly the strings Encode can
 * produce (no '=' except at the end, zero pad bits), so the two round trips
 * EncodeDecode and DecodeEncode both hold.
 */
module Base64 {
  import opened Wrappers

  type byte = x: int | 0 <= x < 256

  const PadChar: char := '='

  predicate IsBase64Char(c: char) {
    ('A' <= c <= 'Z') || ('a' <= c <= 'z') || ('0' <= c <= '9') || c == '+' || c == '/'
  }

  /** The alphabet character for a 6-bit value (Table 1 of RFC 4648). */
  function IndexChar(i: int): (c: char)
    requires 0 <= i < 64
    ensures IsBase64Char(c)
  {
    if i < 26 then ('A' as int + i) as char
    else if i < 52 then ('a' as int + (i - 26)) as char
    else if i < 62 then ('0' as int + (i - 52)) as char
    else if i == 62 then '+'
    else '/'
  }

  /** The 6-bit value of an alphabet character. */
  function CharIndex(c: char): (i: int)
    requires IsBase64Char(c)
    ensures 0 <= i < 64
    ensures IndexChar(i) == c
  {
    if 'A' <= c <= 'Z' then c as int - 'A' as int
    else if 'a' <= c <= 'z' then c as int - 'a' as int + 26
    else if '0' <= c <= '9' then c as int - '0' as int + 52
    else if c == '+' then 62
    else 63
  }

  lemma CharIndexOfIndexChar(i: int)
    requires 0 <= i < 64
    ensures CharIndex(IndexChar(i)) == i
  {
  }

  /** Number of '=' characters that end the encoding of n bytes. */
  function PadLength(n: nat): (p: nat)
    ensures p <= 2
    ensures (n + p) % 3 == 0
  {
    if n % 3 == 0 then 0 else 3 - n % 3
  }

  /** The four characters for one full 3-byte group. */
  function EncodeGroup(a: byte, b: byte, c: byte): (r: string)
    ensures |r| == 4
  {
    [IndexChar(a / 4), IndexChar((a % 4) * 16 + b / 16), IndexChar((b % 16) * 4 + c / 64), IndexChar(c % 64)]
  }

  /** The final group of a single byte: two characters and "==". */
  function EncodeOne(a: byte): (r: string)
    ensures |r| == 4
  {
    [IndexChar(a / 4), IndexChar((a % 4) * 16), PadChar, PadChar]
  }

  /** The final group of two bytes: three characters and "=". */
  function EncodeTwo(a: byte, b: byte): (r: string)
    ensures |r| == 4
  {
    [IndexChar(a / 4), IndexChar((a % 4) * 16 + b / 16), IndexChar((b % 16) * 4), PadChar]
  }

  /** Standard base 64 with padding: |Encode(s)| is 4 * ceil(|s| / 3). */
  function Encode(s: seq<byte>): (r: string)
    ensures |r| == 4 * ((|s| + 2) / 3)
    decreases |s|
  {
    if |s| == 0 then []
    else if |s| == 1 then EncodeOne(s[0])
    else if |s| == 2 then EncodeTwo(s[0], s[1])
    else EncodeGroup(s[0], s[1], s[2]) + Encode(s[3..])
  }

  /** Four alphabet characters back to three bytes. */
  function DecodeGroup(q: string): (r: Option<seq<byte>>)
    requires |q| == 4
  {
    if IsBase64Char(q[0]) && IsBase64Char(q[1]) && IsBase64Char(q[2]) && IsBase64Char(q[3]) then
      var i0, i1, i2, i3 := CharIndex(q[0]), CharIndex(q[1]), CharIndex(q[2]), CharIndex(q[3]);
      Some([i0 * 4 + i1 / 16, (i1 % 16) * 16 + i2 / 4, (i2 % 4) * 64 + i3])
    else None
  }

  /** The last four characters: a full group, or one padded with "=" or "==". */
  function DecodeFinal(q: string): (r: Option<seq<byte>>)
    requires |q| == 4
  {
    if q[2] == PadChar && q[3] == PadChar then
      if IsBase64Char(q[0]) && IsBase64Char(q[1]) && CharIndex(q[1]) % 16 == 0 then
        Some([CharIndex(q[0]) * 4 + CharIndex(q[1]) / 16])
      else None
    else if q[3] == PadChar then
      if IsBase64Char(q[0]) && IsBase64Char(q[1]) && IsBase64Char(q[2]) && CharIndex(q[2]) % 4 == 0 then
        var i0, i1, i2 := CharIndex(q[0]), CharIndex(q[1]), CharIndex(q[2]);
        Some([i0 * 4 + i1 / 16, (i1 % 16) * 16 + i2 / 4])
      else None
    else DecodeGroup(q)
  }

  /** Strict decoding: None unless t is the encoding of some byte sequence. */
  function Decode(t: string): (r: Option<seq<byte>>)
    decreases |t|
  {
    if |t| == 0 then Some([])
    else if |t| < 4 then None
    else if |t| == 4 then DecodeFinal(t)
    else
      var g, rest := DecodeGroup(t[..4]), Decode(t[4..]);
      if g.Some? && rest.Some? then Some(g.value + rest.value) else None
  }

  /** Shape of an encoding of n bytes: alphabet characters, then PadLength(n) '='. */
  predicate WellPadded(r: string, n: nat) {
    PadLength(n) <= |r| &&
    forall i :: 0 <= i < |r| ==>
      (i < |r| - PadLength(n) ==> IsBase64Char(r[i])) &&
      (|r| - PadLength(n) <= i ==> r[i] == PadChar)
  }

  lemma Split16(hi: int, lo: int)
    requires 0 <= lo < 16
    ensures (hi * 16 + lo) / 16 == hi && (hi * 16 + lo) % 16 == lo
  {
  }

  lemma Split4(hi: int, lo: int)
    requires 0 <= lo < 4
    ensures (hi * 4 + lo) / 4 == hi && (hi * 4 + lo) % 4 == lo
  {
  }

  lemma GroupRoundTrip(a: byte, b: byte, c: byte)
    ensures DecodeGroup(EncodeGroup(a, b, c)) == Some([a, b, c])
  {
    var i0, i1, i2, i3 := a / 4, (a % 4) * 16 + b / 16, (b % 16) * 4 + c / 64, c % 64;
    CharIndexOfIndexChar(i0);
    CharIndexOfIndexChar(i1);
    CharIndexOfIndexChar(i2);
    CharIndexOfIndexChar(i3);
    Split16(a % 4, b / 16);
    Split4(b % 16, c / 64);
    assert i0 * 4 + i1 / 16 == a;
    assert (i1 % 16) * 16 + i2 / 4 == b;
    assert (i2 % 4) * 64 + i3 == c;
  }

  lemma OneRoundTrip(a: byte)
    ensures DecodeFinal(EncodeOne(a)) == Some([a])
  {
    CharIndexOfIndexChar(a / 4);
    CharIndexOfIndexChar((a % 4) * 16);
    Split16(a % 4, 0);
  }

  lemma TwoRoundTrip(a: byte, b: byte)
    ensures DecodeFinal(EncodeTwo(a, b)) == Some([a, b])
  {
    var i0, i1, i2 := a / 4, (a % 4) * 16 + b / 16, (b % 16) * 4;
    CharIndexOfIndexChar(i0);
    CharIndexOfIndexChar(i1);
    CharIndexOfIndexChar(i2);
    Split16(a % 4, b / 16);
    Split4(b % 16, 0);
    assert i0 * 4 + i1 / 16 == a;
    assert (i1 % 16) * 16 + i2 / 4 == b;
  }

  lemma Split64(hi: int, lo: int)
    requires 0 <= lo < 64
    ensures (hi * 64 + lo) / 64 == hi && (hi * 64 + lo) % 64 == lo
  {
  }

  /** Four 6-bit values regrouped into three bytes split back into the same four values. */
  lemma RegroupIndices(i0: int, i1: int, i2: int, i3: int, g: seq<byte>)
    requires 0 <= i0 < 64 && 0 <= i1 < 64 && 0 <= i2 < 64 && 0 <= i3 < 64
    requires g == [i0 * 4 + i1 / 16, (i1 % 16) * 16 + i2 / 4, (i2 % 4) * 64 + i3]
    ensures g[0] / 4 == i0 && (g[0] % 4) * 16 + g[1] / 16 == i1
    ensures (g[1] % 16) * 4 + g[2] / 64 == i2 && g[2] % 64 == i3
  {
    Split4(i0, i1 / 16);
    Split16(i1 % 16, i2 / 4);
    Split64(i2 % 4, i3);
  }

  /** EncodeGroup looks only at the four 6-bit values of its bytes. */
  lemma EncodeGroupOfIndices(a: byte, b: byte, c: byte, i0: int, i1: int, i2: int, i3: int)
    requires a / 4 == i0 && (a % 4) * 16 + b / 16 == i1 && (b % 16) * 4 + c / 64 == i2 && c % 64 == i3
    ensures EncodeGroup(a, b, c) == [IndexChar(i0), IndexChar(i1), IndexChar(i2), IndexChar(i3)]
  {
  }

  lemma FourChars(q: string)
    requires |q| == 4
    ensures q == [q[0], q[1], q[2], q[3]]
  {
  }

  lemma GroupOfDecoded(q: string)
    requires |q| == 4 && DecodeGroup(q).Some?
    ensures var g := DecodeGroup(q).value; |g| == 3 && EncodeGroup(g[0], g[1], g[2]) == q
  {
    var i0, i1, i2, i3 := CharIndex(q[0]), CharIndex(q[1]), CharIndex(q[2]), CharIndex(q[3]);
    var g := DecodeGroup(q).value;
    RegroupIndices(i0, i1, i2, i3, g);
    EncodeGroupOfIndices(g[0], g[1], g[2], i0, i1, i2, i3);
    FourChars(q);
  }

  lemma FinalOfDecoded(q: string)
    requires |q| == 4 && DecodeFinal(q).Some?
    ensures var g := DecodeFinal(q).value; 1 <= |g| <= 3 && Encode(g) == q
  {
    var g := DecodeFinal(q).value;
    if q[2] == PadChar && q[3] == PadChar {
      var i0, i1 := CharIndex(q[0]), CharIndex(q[1]);
      Split4(i0, i1 / 16);
      assert (g[0] % 4) * 16 == i1;
      assert EncodeOne(g[0]) == q;
    } else if q[3] == PadChar {
      var i0, i1, i2 := CharIndex(q[0]), CharIndex(q[1]), CharIndex(q[2]);
      Split4(i0, i1 / 16);
      Split16(i1 % 16, i2 / 4);
      assert (g[0] % 4) * 16 + g[1] / 16 == i1;
      assert (g[1] % 16) * 4 == i2;
      assert EncodeTwo(g[0], g[1]) == q;
    } else {
      GroupOfDecoded(q);
      assert Encode(g) == EncodeGroup(g[0], g[1], g[2]) + Encode(g[3..]);
    }
  }

  /** Decode on a group followed by more characters: the group, then the rest. */
  lemma DecodeAppend(q: string, rest: string)
    requires |q| == 4 && |rest| > 0
    ensures Decode(q + rest) ==
      if DecodeGroup(q).Some? && Decode(rest).Some? then Some(DecodeGroup(q).value + Decode(rest).value) else None
  {
    var t := q + rest;
    assert t[..4] == q && t[4..] == rest;
  }

  lemma EncodeDecodeOne(s: seq<byte>)
    requires |s| == 1
    ensures Decode(Encode(s)) == Some(s)
  {
    OneRoundTrip(s[0]);
    assert s == [s[0]];
  }

  lemma EncodeDecodeTwo(s: seq<byte>)
    requires |s| == 2
    ensures Decode(Encode(s)) == Some(s)
  {
    TwoRoundTrip(s[0], s[1]);
    assert s == [s[0], s[1]];
  }

  lemma EncodeDecodeGroup(s: seq<byte>)
    requires |s| == 3
    ensures Decode(Encode(s)) == Some(s)
  {
    EncodeThree(s);
    GroupDecodes(s[0], s[1], s[2]);
    ThreeBytes(s);
  }

  lemma EncodeThree(s: seq<byte>)
    requires |s| == 3
    ensures Encode(s) == EncodeGroup(s[0], s[1], s[2])
  {
    assert s[3..] == [];
    assert Encode(s) == EncodeGroup(s[0], s[1], s[2]) + [];
  }

  lemma GroupDecodes(a: byte, b: byte, c: byte)
    ensures Decode(EncodeGroup(a, b, c)) == Some([a, b, c])
  {
    DecodeUnpaddedFinal(EncodeGroup(a, b, c));
    GroupRoundTrip(a, b, c);
  }

  /** A final group with no '=' is decoded as a full group. */
  lemma DecodeUnpaddedFinal(q: string)
    requires |q| == 4 && IsBase64Char(q[2]) && IsBase64Char(q[3])
    ensures Decode(q) == DecodeGroup(q)
  {
  }

  lemma ThreeBytes(s: seq<byte>)
    requires |s| == 3
    ensures s == [s[0], s[1], s[2]]
  {
  }

  lemma SplitFirstGroup(s: seq<byte>)
    requires |s| >= 3
    ensures s == [s[0], s[1], s[2]] + s[3..]
  {
    assert s[..3] == [s[0], s[1], s[2]];
    assert s == s[..3] + s[3..];
  }

  lemma EncodeDecodeStep(s: seq<byte>)
    requires |s| > 3 && Decode(Encode(s[3..])) == Some(s[3..])
    ensures Decode(Encode(s)) == Some(s)
  {
    var g := EncodeGroup(s[0], s[1], s[2]);
    var rest := Encode(s[3..]);
    assert Encode(s) == g + rest;
    GroupRoundTrip(s[0], s[1], s[2]);
    DecodeAppend(g, rest);
    SplitFirstGroup(s);
  }

  /** Decoding an encoding gives back the bytes. */
  lemma {:induction false} EncodeDecode(s: seq<byte>)
    ensures Decode(Encode(s)) == Some(s)
    decreases |s|
  {
    if |s| == 1 {
      EncodeDecodeOne(s);
    } else if |s| == 2 {
      EncodeDecodeTwo(s);
    } else if |s| == 3 {
      EncodeDecodeGroup(s);
    } else if |s| > 3 {
      EncodeDecode(s[3..]);
      EncodeDecodeStep(s);
    }
  }

  /** Decode accepts only encodings: whatever it returns re-encodes to its input. */
  lemma {:induction false} DecodeEncode(t: string)
    requires Decode(t).Some?
    ensures Encode(Decode(t).value) == t
    decreases |t|
  {
    if |t| == 4 {
      FinalOfDecoded(t);
    } else if |t| > 4 {
      var g := DecodeGroup(t[..4]).value;
      var rest := Decode(t[4..]).value;
      GroupOfDecoded(t[..4]);
      DecodeEncode(t[4..]);
      var s := g + rest;
      assert s[3..] == rest;
      assert Encode(s) == EncodeGroup(g[0], g[1], g[2]) + Encode(rest);
      assert t == t[..4] + t[4..];
    }
  }

  /** Distinct byte sequences have distinct encodings. */
  lemma EncodeInjective(s1: seq<byte>, s2: seq<byte>)
    requires Encode(s1) == Encode(s2)
    ensures s1 == s2
  {
    EncodeDecode(s1);
    EncodeDecode(s2);
  }

  /** Every character is in the alphabet except the PadLength(|s|) trailing '='. */
  lemma {:induction false} EncodeWellPadded(s: seq<byte>)
    ensures WellPadded(Encode(s), |s|)
    decreases |s|
  {
    if |s| >= 3 {
      var r := Encode(s);
      var g := EncodeGroup(s[0], s[1], s[2]);
      EncodeWellPadded(s[3..]);
      assert PadLength(|s|) == PadLength(|s| - 3);
      assert r == g + Encode(s[3..]);
      forall i | 0 <= i < |r|
        ensures (i < |r| - PadLength(|s|) ==> IsBase64Char(r[i]))
        ensures (|r| - PadLength(|s|) <= i ==> r[i] == PadChar)
      {
        if i >= 4 {
          assert r[i] == Encode(s[3..])[i - 4];
        }
      }
    }
  }

  /** A 64-byte value (an Ed25519 signature) encodes to 88 characters ending in "==". */
  lemma Encode64(s: seq<byte>)
    requires |s| == 64
    ensures |Encode(s)| == 88
    ensures Encode(s)[86..] == "=="
    ensures forall i :: 0 <= i < 86 ==> IsBase64Char(Encode(s)[i])
  {
    EncodeWellPadded(s);
  }

  /** A 32-byte value (an Ed25519 public key) encodes to 44 characters ending in a single "=". */
  lemma Encode32(s: seq<byte>)
    requires |s| == 32
    ensures |Encode(s)| == 44
    ensures Encode(s)[43] == PadChar
    ensures forall i :: 0 <= i < 43 ==> IsBase64Char(Encode(s)[i])
  {
    EncodeWellPadded(s);
  }

  /** The test vectors of section 10 of RFC 4648. */
  lemma TestVectors()
    ensures Encode([]) == ""
    ensures Encode([102]) == "Zg=="
    ensures Encode([102, 111]) == "Zm8="
    ensures Encode([102, 111, 111]) == "Zm9v"
    ensures Encode([102, 111, 111, 98]) == "Zm9vYg=="
    ensures Encode([102, 111, 111, 98, 97]) == "Zm9vYmE="
    ensures Encode([102, 111, 111, 98, 97, 114]) == "Zm9vYmFy"
  {
    assert [102, 111, 111, 98][3..] == [98];
    assert [102, 111, 111, 98, 97][3..] == [98, 97];
    assert [102, 111, 111, 98, 97, 114][3..] == [98, 97, 114];
  }
}
