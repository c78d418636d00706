/**
 * The browser's `btoa`: a string whose characters are all at most U+00FF is
 * read as Latin-1 bytes and encoded with the base 64 alphabet of section 4
 * of RFC 4648, padded with `=`. Any other character makes `btoa` throw an
 * InvalidCharacterError, modelled as `None`.
 */
module Base64 {

  import opened Wrappers
  import opened Arith

  type Byte = b: int | 0 <= b < 256

  /** The character of the base 64 alphabet for a 6-bit value. */
  function CharOf(v: nat): char
    requires v < 64
  {
    if v < 26 then ('A' as int + v) as char
    else if v < 52 then ('a' as int + (v - 26)) as char
    else if v < 62 then ('0' as int + (v - 52)) as char
    else if v == 62 then '+'
    else '/'
  }

  predicate IsBase64Char(c: char)
  {
    ('A' <= c <= 'Z') || ('a' <= c <= 'z') || ('0' <= c <= '9') || c == '+' || c == '/'
  }

  /** The 6-bit value of an alphabet character: the inverse of `CharOf`. */
  function ValueOf(c: char): (v: nat)
    requires IsBase64Char(c)
    ensures v < 64 && CharOf(v) == c
  {
    if 'A' <= c <= 'Z' then c as int - 'A' as int
    else if 'a' <= c <= 'z' then c as int - 'a' as int + 26
    else if '0' <= c <= '9' then c as int - '0' as int + 52
    else if c == '+' then 62
    else 63
  }

  lemma ValueOfCharOf(v: nat)
    requires v < 64
    ensures IsBase64Char(CharOf(v)) && ValueOf(CharOf(v)) == v
  {
  }

  /** Four characters for three bytes. */
  function EncodeGroup(b0: Byte, b1: Byte, b2: Byte): string
  {
    [CharOf(b0 / 4), CharOf((b0 % 4) * 16 + b1 / 16), CharOf((b1 % 16) * 4 + b2 / 64), CharOf(b2 % 64)]
  }

  /** Base 64 encoding with padding: every three bytes become four characters. */
  function Encode(b: seq<Byte>): (r: string)
    ensures |r| == 4 * ((|b| + 2) / 3)
  {
    if |b| == 0 then []
    else if |b| == 1 then [CharOf(b[0] / 4), CharOf((b[0] % 4) * 16), '=', '=']
    else if |b| == 2 then [CharOf(b[0] / 4), CharOf((b[0] % 4) * 16 + b[1] / 16), CharOf((b[1] % 16) * 4), '=']
    else EncodeGroup(b[0], b[1], b[2]) + Encode(b[3..])
  }

  /** Three bytes for four alphabet characters. */
  function DecodeGroup(c0: char, c1: char, c2: char, c3: char): seq<Byte>
    requires IsBase64Char(c0) && IsBase64Char(c1) && IsBase64Char(c2) && IsBase64Char(c3)
  {
    var v0, v1, v2, v3 := ValueOf(c0), ValueOf(c1), ValueOf(c2), ValueOf(c3);
    [v0 * 4 + v1 / 16, (v1 % 16) * 16 + v2 / 4, (v2 % 4) * 64 + v3]
  }

  /** The last group, which may carry one or two `=`; bits the padding drops must be zero. */
  function DecodeFinal(c0: char, c1: char, c2: char, c3: char): Option<seq<Byte>>
  {
    if !(IsBase64Char(c0) && IsBase64Char(c1)) then None
    else
      var v0, v1 := ValueOf(c0), ValueOf(c1);
      if c2 == '=' && c3 == '=' then
        if v1 % 16 == 0 then Some([v0 * 4 + v1 / 16]) else None
      else if IsBase64Char(c2) && c3 == '=' then
        var v2 := ValueOf(c2);
        if v2 % 4 == 0 then Some([v0 * 4 + v1 / 16, (v1 % 16) * 16 + v2 / 4]) else None
      else if IsBase64Char(c2) && IsBase64Char(c3) then
        Some(DecodeGroup(c0, c1, c2, c3))
      else None
  }

  /** Strict base 64 decoding: accepts exactly the strings `Encode` produces. */
  function Decode(s: string): Option<seq<Byte>>
  {
    if |s| == 0 then Some([])
    else if |s| < 4 then None
    else if |s| == 4 then DecodeFinal(s[0], s[1], s[2], s[3])
    else if IsBase64Char(s[0]) && IsBase64Char(s[1]) && IsBase64Char(s[2]) && IsBase64Char(s[3]) then
      match Decode(s[4..])
      case None => None
      case Some(rest) => Some(DecodeGroup(s[0], s[1], s[2], s[3]) + rest)
    else None
  }

  /** Splitting three bytes into four 6-bit values and joining them again is the identity. */
  lemma SplitJoin(b0: Byte, b1: Byte, b2: Byte)
    ensures var v0, v1, v2, v3 := b0 / 4, (b0 % 4) * 16 + b1 / 16, (b1 % 16) * 4 + b2 / 64, b2 % 64;
      v0 < 64 && v1 < 64 && v2 < 64 && v3 < 64 &&
      v0 * 4 + v1 / 16 == b0 && (v1 % 16) * 16 + v2 / 4 == b1 && (v2 % 4) * 64 + v3 == b2
  {
    DivMod(b0 % 4, b1 / 16, 16);
    DivMod(b1 % 16, b2 / 64, 4);
  }

  /** Joining four 6-bit values into three bytes and splitting them again is the identity. */
  lemma JoinSplit(v0: nat, v1: nat, v2: nat, v3: nat)
    requires v0 < 64 && v1 < 64 && v2 < 64 && v3 < 64
    ensures var d0, d1, d2 := v0 * 4 + v1 / 16, (v1 % 16) * 16 + v2 / 4, (v2 % 4) * 64 + v3;
      d0 < 256 && d1 < 256 && d2 < 256 &&
      d0 / 4 == v0 && (d0 % 4) * 16 + d1 / 16 == v1 && (d1 % 16) * 4 + d2 / 64 == v2 && d2 % 64 == v3
  {
    DivMod(v0, v1 / 16, 4);
    DivMod(v1 % 16, v2 / 4, 16);
    DivMod(v2 % 4, v3, 64);
  }

  /** `EncodeGroup` once its four 6-bit values are known. */
  lemma EncodeGroupValues(b0: Byte, b1: Byte, b2: Byte, v0: nat, v1: nat, v2: nat, v3: nat)
    requires v0 == b0 / 4 && v1 == (b0 % 4) * 16 + b1 / 16 && v2 == (b1 % 16) * 4 + b2 / 64 && v3 == b2 % 64
    requires v0 < 64 && v1 < 64 && v2 < 64 && v3 < 64
    ensures EncodeGroup(b0, b1, b2) == [CharOf(v0), CharOf(v1), CharOf(v2), CharOf(v3)]
  {
  }

  /** `DecodeGroup` once its four 6-bit values are known. */
  lemma DecodeGroupValues(c0: char, c1: char, c2: char, c3: char, v0: nat, v1: nat, v2: nat, v3: nat)
    requires IsBase64Char(c0) && IsBase64Char(c1) && IsBase64Char(c2) && IsBase64Char(c3)
    requires ValueOf(c0) == v0 && ValueOf(c1) == v1 && ValueOf(c2) == v2 && ValueOf(c3) == v3
    ensures DecodeGroup(c0, c1, c2, c3) == [v0 * 4 + v1 / 16, (v1 % 16) * 16 + v2 / 4, (v2 % 4) * 64 + v3]
  {
  }

  lemma GroupRoundTrip(b0: Byte, b1: Byte, b2: Byte)
    ensures var g := EncodeGroup(b0, b1, b2);
      IsBase64Char(g[0]) && IsBase64Char(g[1]) && IsBase64Char(g[2]) && IsBase64Char(g[3]) &&
      DecodeGroup(g[0], g[1], g[2], g[3]) == [b0, b1, b2]
  {
    var v0, v1, v2, v3 := b0 / 4, (b0 % 4) * 16 + b1 / 16, (b1 % 16) * 4 + b2 / 64, b2 % 64;
    SplitJoin(b0, b1, b2);
    EncodeGroupValues(b0, b1, b2, v0, v1, v2, v3);
    ValueOfCharOf(v0);
    ValueOfCharOf(v1);
    ValueOfCharOf(v2);
    ValueOfCharOf(v3);
    DecodeGroupValues(CharOf(v0), CharOf(v1), CharOf(v2), CharOf(v3), v0, v1, v2, v3);
  }

  /** One byte encodes to two characters and `==`, which decode back to it. */
  lemma OneByteRoundTrip(b0: Byte)
    ensures Decode(Encode([b0])) == Some([b0])
  {
    var v0, v1 := b0 / 4, (b0 % 4) * 16;
    SplitJoin(b0, 0, 0);
    ValueOfCharOf(v0);
    ValueOfCharOf(v1);
    var s := Encode([b0]);
    assert s == [CharOf(v0), CharOf(v1), '=', '='];
    assert Decode(s) == DecodeFinal(CharOf(v0), CharOf(v1), '=', '=');
  }

  /** Two bytes encode to three characters and `=`, which decode back to them. */
  lemma TwoBytesRoundTrip(b0: Byte, b1: Byte)
    ensures Decode(Encode([b0, b1])) == Some([b0, b1])
  {
    var v0, v1, v2 := b0 / 4, (b0 % 4) * 16 + b1 / 16, (b1 % 16) * 4;
    SplitJoin(b0, b1, 0);
    ValueOfCharOf(v0);
    ValueOfCharOf(v1);
    ValueOfCharOf(v2);
    var s := Encode([b0, b1]);
    assert s == [CharOf(v0), CharOf(v1), CharOf(v2), '='];
    assert Decode(s) == DecodeFinal(CharOf(v0), CharOf(v1), CharOf(v2), '=');
  }

  /** A full group in front of more characters decodes on its own. */
  lemma DecodeCons(s: string)
    requires |s| > 4
    requires IsBase64Char(s[0]) && IsBase64Char(s[1]) && IsBase64Char(s[2]) && IsBase64Char(s[3])
    requires Decode(s[4..]).Some?
    ensures Decode(s) == Some(DecodeGroup(s[0], s[1], s[2], s[3]) + Decode(s[4..]).value)
  {
  }

  /** A longer string that decodes starts with a full group and decodes after it. */
  lemma DecodeLonger(s: string)
    requires |s| > 4 && Decode(s).Some?
    ensures IsBase64Char(s[0]) && IsBase64Char(s[1]) && IsBase64Char(s[2]) && IsBase64Char(s[3])
    ensures Decode(s[4..]).Some?
  {
  }

  /** Three or more bytes: the first group, then the rest. */
  lemma EncodeCons(b: seq<Byte>)
    requires |b| >= 3
    ensures Encode(b) == EncodeGroup(b[0], b[1], b[2]) + Encode(b[3..])
  {
  }

  /** Three bytes encode to one full group, which decodes back to them. */
  lemma ThreeBytesRoundTrip(b: seq<Byte>)
    requires |b| == 3
    ensures Decode(Encode(b)) == Some(b)
  {
    var g := EncodeGroup(b[0], b[1], b[2]);
    EncodeCons(b);
    assert Encode(b[3..]) == [];
    assert Encode(b) == g;
    GroupRoundTrip(b[0], b[1], b[2]);
    assert Decode(g) == DecodeFinal(g[0], g[1], g[2], g[3]);
    assert b == [b[0], b[1], b[2]];
  }

  lemma ThreeThenRest(b: seq<Byte>)
    requires |b| >= 3
    ensures [b[0], b[1], b[2]] + b[3..] == b
  {
  }

  /** One step of `DecodeEncode`: with the rest round-tripping, so does a leading group. */
  lemma DecodeEncodeStep(b: seq<Byte>)
    requires |b| > 3 && Decode(Encode(b[3..])) == Some(b[3..])
    ensures Decode(Encode(b)) == Some(b)
  {
    var g := EncodeGroup(b[0], b[1], b[2]);
    var s := Encode(b);
    EncodeCons(b);
    GroupRoundTrip(b[0], b[1], b[2]);
    assert s[..4] == g && s[4..] == Encode(b[3..]);
    DecodeCons(s);
    ThreeThenRest(b);
  }

  /** Decoding an encoding gives back the bytes. */
  lemma {:induction false} DecodeEncode(b: seq<Byte>)
    ensures Decode(Encode(b)) == Some(b)
  {
    if |b| == 1 {
      OneByteRoundTrip(b[0]);
      assert b == [b[0]];
    } else if |b| == 2 {
      TwoBytesRoundTrip(b[0], b[1]);
      assert b == [b[0], b[1]];
    } else if |b| == 3 {
      ThreeBytesRoundTrip(b);
    } else if |b| > 3 {
      DecodeEncode(b[3..]);
      DecodeEncodeStep(b);
    }
  }

  /** The bytes of a decoded group split back into the group's four 6-bit values. */
  lemma DecodedGroupValues(c0: char, c1: char, c2: char, c3: char)
    requires IsBase64Char(c0) && IsBase64Char(c1) && IsBase64Char(c2) && IsBase64Char(c3)
    ensures var d := DecodeGroup(c0, c1, c2, c3);
      d[0] / 4 == ValueOf(c0) && (d[0] % 4) * 16 + d[1] / 16 == ValueOf(c1) &&
      (d[1] % 16) * 4 + d[2] / 64 == ValueOf(c2) && d[2] % 64 == ValueOf(c3)
  {
    JoinSplit(ValueOf(c0), ValueOf(c1), ValueOf(c2), ValueOf(c3));
  }

  lemma GroupOfDecoded(c0: char, c1: char, c2: char, c3: char)
    requires IsBase64Char(c0) && IsBase64Char(c1) && IsBase64Char(c2) && IsBase64Char(c3)
    ensures var d := DecodeGroup(c0, c1, c2, c3); EncodeGroup(d[0], d[1], d[2]) == [c0, c1, c2, c3]
  {
    var d := DecodeGroup(c0, c1, c2, c3);
    DecodedGroupValues(c0, c1, c2, c3);
    EncodeGroupValues(d[0], d[1], d[2], ValueOf(c0), ValueOf(c1), ValueOf(c2), ValueOf(c3));
  }

  /** A final group with `==` re-encodes to itself. */
  lemma FinalOne(c0: char, c1: char)
    requires IsBase64Char(c0) && IsBase64Char(c1) && ValueOf(c1) % 16 == 0
    ensures Encode([ValueOf(c0) * 4 + ValueOf(c1) / 16]) == [c0, c1, '=', '=']
  {
    var v0, v1 := ValueOf(c0), ValueOf(c1);
    JoinSplit(v0, v1, 0, 0);
    var b0: Byte := v0 * 4 + v1 / 16;
    assert b0 / 4 == v0 && (b0 % 4) * 16 == v1;
    assert Encode([b0]) == [CharOf(v0), CharOf(v1), '=', '='];
  }

  /** A final group with one `=` re-encodes to itself. */
  lemma FinalTwo(c0: char, c1: char, c2: char)
    requires IsBase64Char(c0) && IsBase64Char(c1) && IsBase64Char(c2) && ValueOf(c2) % 4 == 0
    ensures Encode([ValueOf(c0) * 4 + ValueOf(c1) / 16, (ValueOf(c1) % 16) * 16 + ValueOf(c2) / 4]) == [c0, c1, c2, '=']
  {
    var v0, v1, v2 := ValueOf(c0), ValueOf(c1), ValueOf(c2);
    JoinSplit(v0, v1, v2, 0);
    var b0: Byte, b1: Byte := v0 * 4 + v1 / 16, (v1 % 16) * 16 + v2 / 4;
    assert b0 / 4 == v0 && (b0 % 4) * 16 + b1 / 16 == v1 && (b1 % 16) * 4 == v2;
    assert Encode([b0, b1]) == [CharOf(v0), CharOf(v1), CharOf(v2), '='];
  }

  /** A final group without padding re-encodes to itself. */
  lemma FinalThree(c0: char, c1: char, c2: char, c3: char)
    requires IsBase64Char(c0) && IsBase64Char(c1) && IsBase64Char(c2) && IsBase64Char(c3)
    ensures Encode(DecodeGroup(c0, c1, c2, c3)) == [c0, c1, c2, c3]
  {
    var b := DecodeGroup(c0, c1, c2, c3);
    GroupOfDecoded(c0, c1, c2, c3);
    EncodeCons(b);
    assert b[3..] == [];
  }

  /** A final group that decodes is the encoding of its bytes. */
  lemma FinalOfDecoded(c0: char, c1: char, c2: char, c3: char)
    requires DecodeFinal(c0, c1, c2, c3).Some?
    ensures Encode(DecodeFinal(c0, c1, c2, c3).value) == [c0, c1, c2, c3]
  {
    if c2 == '=' && c3 == '=' {
      FinalOne(c0, c1);
    } else if c3 == '=' {
      FinalTwo(c0, c1, c2);
    } else {
      FinalThree(c0, c1, c2, c3);
    }
  }

  lemma EncodeGroupThen(g: seq<Byte>, rest: seq<Byte>)
    requires |g| == 3
    ensures Encode(g + rest) == EncodeGroup(g[0], g[1], g[2]) + Encode(rest)
  {
    EncodeCons(g + rest);
    assert (g + rest)[3..] == rest;
  }

  lemma FourThenRest(s: string)
    requires |s| >= 4
    ensures [s[0], s[1], s[2], s[3]] + s[4..] == s
  {
  }

  /** One step of `EncodeDecode`: a leading full group re-encodes to itself. */
  lemma EncodeDecodeStep(s: string)
    requires |s| > 4 && Decode(s).Some?
    requires Encode(Decode(s[4..]).value) == s[4..]
    ensures Encode(Decode(s).value) == s
  {
    DecodeLonger(s);
    var rest := Decode(s[4..]).value;
    var g := DecodeGroup(s[0], s[1], s[2], s[3]);
    DecodeCons(s);
    GroupOfDecoded(s[0], s[1], s[2], s[3]);
    EncodeGroupThen(g, rest);
    FourThenRest(s);
  }

  /** Every string `Decode` accepts is the encoding of what it decodes to. */
  lemma {:induction false} EncodeDecode(s: string)
    requires Decode(s).Some?
    ensures Encode(Decode(s).value) == s
  {
    if |s| == 4 {
      FinalOfDecoded(s[0], s[1], s[2], s[3]);
      assert s == [s[0], s[1], s[2], s[3]];
    } else if |s| > 4 {
      DecodeLonger(s);
      EncodeDecode(s[4..]);
      EncodeDecodeStep(s);
    }
  }

  /** The first `4k` characters of an encoding only depend on the first `3k` bytes. */
  lemma {:induction false} EncodePrefix(b: seq<Byte>, k: nat)
    requires 3 * k <= |b|
    ensures Encode(b)[..4 * k] == Encode(b[..3 * k])
  {
    if k > 0 {
      EncodePrefix(b[3..], k - 1);
      assert b[..3 * k][3..] == b[3..][..3 * (k - 1)];
    }
  }

  /** `btoa` output uses only the alphabet and the pad character. */
  lemma {:induction false} EncodeChars(b: seq<Byte>)
    ensures forall k :: 0 <= k < |Encode(b)| ==> IsBase64Char(Encode(b)[k]) || Encode(b)[k] == '='
  {
    if |b| >= 3 {
      EncodeCons(b);
      EncodeChars(b[3..]);
      ValueOfCharOf(b[0] / 4);
      ValueOfCharOf((b[0] % 4) * 16 + b[1] / 16);
      ValueOfCharOf((b[1] % 16) * 4 + b[2] / 64);
      ValueOfCharOf(b[2] % 64);
    } else if |b| == 2 {
      ValueOfCharOf(b[0] / 4);
      ValueOfCharOf((b[0] % 4) * 16 + b[1] / 16);
      ValueOfCharOf((b[1] % 16) * 4);
    } else if |b| == 1 {
      ValueOfCharOf(b[0] / 4);
      ValueOfCharOf((b[0] % 4) * 16);
    }
  }

  /** The Latin-1 bytes of a string whose characters all are at most U+00FF. */
  function Latin1(s: string): (r: Option<seq<Byte>>)
    ensures r.Some? <==> forall k :: 0 <= k < |s| ==> s[k] as int < 256
    ensures r.Some? ==> |r.value| == |s| && forall k :: 0 <= k < |s| ==> r.value[k] == s[k] as int
  {
    if s == [] then Some([])
    else if s[0] as int >= 256 then None
    else match Latin1(s[1..])
      case None => None
      case Some(rest) => Some([s[0] as int as Byte] + rest)
  }

  /** `btoa(s)`. */
  function Btoa(s: string): Option<string>
  {
    match Latin1(s)
    case None => None
    case Some(b) => Some(Encode(b))
  }
}
