/**
 * Base64 text as `Convert.FromBase64String` reads it: the alphabet and
 * padding of section 4 of RFC 4648, after dropping the white space
 * characters (space, tab, carriage return, line feed) that .NET ignores.
 */
module Base64 {
  import opened Base

  predicate IsIgnoredWhite(c: char) {
    c == ' ' || c == '\t' || c == '\r' || c == '\n'
  }

  /** The text with every ignored white-space character removed, order kept. */
  function StripWhite(s: string): (r: string)
    ensures |r| <= |s|
    ensures forall i :: 0 <= i < |r| ==> !IsIgnoredWhite(r[i])
  {
    if s == [] then []
    else (if IsIgnoredWhite(s[0]) then [] else [s[0]]) + StripWhite(s[1..])
  }

  /** Every character that is not ignored white space survives. */
  lemma {:induction false} StripWhiteKeeps(s: string)
    ensures forall i :: 0 <= i < |s| && !IsIgnoredWhite(s[i]) ==> s[i] in StripWhite(s)
  {
    if s != [] {
      StripWhiteKeeps(s[1..]);
      assert forall i :: 1 <= i < |s| ==> s[i] == s[1..][i - 1];
    }
  }

  /** The 6-bit value of an alphabet character, or `None` for any other character. */
  function SextetOf(c: char): (r: Option<nat>)
    ensures r.Some? ==> r.value < 64
  {
    if 'A' <= c <= 'Z' then Some(c as int - 'A' as int)
    else if 'a' <= c <= 'z' then Some(c as int - 'a' as int + 26)
    else if '0' <= c <= '9' then Some(c as int - '0' as int + 52)
    else if c == '+' then Some(62)
    else if c == '/' then Some(63)
    else None
  }

  /** The alphabet character for a 6-bit value. */
  function SextetChar(v: nat): (c: char)
    requires v < 64
    ensures SextetOf(c) == Some(v)
  {
    if v < 26 then ('A' as int + v) as char
    else if v < 52 then ('a' as int + v - 26) as char
    else if v < 62 then ('0' as int + v - 52) as char
    else if v == 62 then '+'
    else '/'
  }

  function Byte0(s0: nat, s1: nat): byte requires s0 < 64 && s1 < 64 { s0 * 4 + s1 / 16 }
  function Byte1(s1: nat, s2: nat): byte requires s1 < 64 && s2 < 64 { (s1 % 16) * 16 + s2 / 4 }
  function Byte2(s2: nat, s3: nat): byte requires s2 < 64 && s3 < 64 { (s2 % 4) * 64 + s3 }

  /** A quantum of four alphabet characters: three bytes. */
  function DecodeFull(a: char, b: char, c: char, d: char): (r: Option<seq<byte>>)
    ensures r.Some? ==> |r.value| == 3
  {
    var s0, s1, s2, s3 := SextetOf(a), SextetOf(b), SextetOf(c), SextetOf(d);
    if s0.Some? && s1.Some? && s2.Some? && s3.Some? then
      Some([Byte0(s0.value, s1.value), Byte1(s1.value, s2.value), Byte2(s2.value, s3.value)])
    else None
  }

  /** The last quantum, which may end in "=" (two bytes) or "==" (one byte). */
  function DecodeFinal(a: char, b: char, c: char, d: char): (r: Option<seq<byte>>)
    ensures r.Some? ==> 1 <= |r.value| <= 3
  {
    var s0, s1, s2 := SextetOf(a), SextetOf(b), SextetOf(c);
    if d == '=' && c == '=' then
      if s0.Some? && s1.Some? then Some([Byte0(s0.value, s1.value)]) else None
    else if d == '=' then
      if s0.Some? && s1.Some? && s2.Some? then Some([Byte0(s0.value, s1.value), Byte1(s1.value, s2.value)]) else None
    else DecodeFull(a, b, c, d)
  }

  /**
   * Decodes a white-space-free text quantum by quantum; a trailing group of
   * fewer than four characters fails (`Decode` rejects such lengths first).
   */
  function DecodeQuanta(t: string): Option<seq<byte>>
    decreases |t|
  {
    if t == [] then Some([])
    else if |t| < 4 then None
    else if |t| == 4 then DecodeFinal(t[0], t[1], t[2], t[3])
    else
      match DecodeFull(t[0], t[1], t[2], t[3])
      case None => None
      case Some(head) =>
        match DecodeQuanta(t[4..])
        case None => None
        case Some(tail) => Some(head + tail)
  }

  /**
   * `Convert.FromBase64String(s)`: `None` stands for the `FormatException` it
   * throws. Once white space is dropped, the text is whole quanta, each giving
   * three bytes except the last, which may give one or two.
   */
  function Decode(s: string): (r: Option<seq<byte>>)
    ensures r.Some? ==>
      var t := StripWhite(s);
      |t| % 4 == 0 && 3 * (|t| / 4) - 2 <= |r.value| <= 3 * (|t| / 4)
  {
    var t := StripWhite(s);
    DecodeQuantaLength(t);
    if |t| % 4 != 0 then None else DecodeQuanta(t)
  }

  /** Every quantum of a decodable text gives three bytes, except the last, which gives one to three. */
  lemma {:induction false} DecodeQuantaLength(t: string)
    ensures DecodeQuanta(t).Some? ==> |t| % 4 == 0 && 3 * (|t| / 4) - 2 <= |DecodeQuanta(t).value| <= 3 * (|t| / 4)
    decreases |t|
  {
    if |t| > 4 && DecodeQuanta(t).Some? {
      var rest := t[4..];
      DecodeQuantaLength(rest);
      var head, tail := DecodeFull(t[0], t[1], t[2], t[3]).value, DecodeQuanta(rest).value;
      assert DecodeQuanta(t).value == head + tail;
      assert |rest| / 4 == |t| / 4 - 1 && |rest| % 4 == |t| % 4;
    }
  }

  /** Three bytes as four alphabet characters. */
  function EncodeFull(a: byte, b: byte, c: byte): (r: string)
    ensures |r| == 4 && forall i :: 0 <= i < 4 ==> SextetOf(r[i]).Some?
  {
    [SextetChar(a / 4), SextetChar((a % 4) * 16 + b / 16), SextetChar((b % 16) * 4 + c / 64), SextetChar(c % 64)]
  }

  /** A final group of one or two bytes, padded with "==" or "=". */
  function EncodePadded(bs: seq<byte>): (r: string)
    requires 1 <= |bs| <= 2
    ensures |r| == 4 && r[3] == '=' && (r[2] == '=' <==> |bs| == 1)
  {
    if |bs| == 1 then [SextetChar(bs[0] / 4), SextetChar((bs[0] % 4) * 16), '=', '=']
    else [SextetChar(bs[0] / 4), SextetChar((bs[0] % 4) * 16 + bs[1] / 16), SextetChar((bs[1] % 16) * 4), '=']
  }

  /** The canonical padded encoding of a byte sequence (`Convert.ToBase64String`). */
  function Encode(bs: seq<byte>): (r: string)
    ensures |r| % 4 == 0 && (|r| == 0 <==> bs == [])
  {
    if |bs| == 0 then ""
    else if |bs| <= 2 then EncodePadded(bs)
    else EncodeFull(bs[0], bs[1], bs[2]) + Encode(bs[3..])
  }

  /** Splitting a byte into 6+2 or 4+4 or 2+6 bits and joining them back restores it. */
  lemma BitSplits(a: byte, b: byte, c: byte)
    ensures Byte0(a / 4, (a % 4) * 16 + b / 16) == a
    ensures Byte1((a % 4) * 16 + b / 16, (b % 16) * 4 + c / 64) == b
    ensures Byte2((b % 16) * 4 + c / 64, c % 64) == c
    ensures Byte0(a / 4, (a % 4) * 16) == a
    ensures Byte1((a % 4) * 16 + b / 16, (b % 16) * 4) == b
  {
  }

  /** Decoding a full quantum with known 6-bit values. */
  lemma DecodeFullOfSextets(s0: nat, s1: nat, s2: nat, s3: nat)
    requires s0 < 64 && s1 < 64 && s2 < 64 && s3 < 64
    ensures DecodeFull(SextetChar(s0), SextetChar(s1), SextetChar(s2), SextetChar(s3))
         == Some([Byte0(s0, s1), Byte1(s1, s2), Byte2(s2, s3)])
  {
    assert SextetOf(SextetChar(s0)) == Some(s0) && SextetOf(SextetChar(s1)) == Some(s1);
    assert SextetOf(SextetChar(s2)) == Some(s2) && SextetOf(SextetChar(s3)) == Some(s3);
  }

  lemma DecodeFullOfEncodeFull(a: byte, b: byte, c: byte)
    ensures var q := EncodeFull(a, b, c); DecodeFull(q[0], q[1], q[2], q[3]) == Some([a, b, c])
  {
    BitSplits(a, b, c);
    DecodeFullOfSextets(a / 4, (a % 4) * 16 + b / 16, (b % 16) * 4 + c / 64, c % 64);
  }

  lemma DecodeFinalOfOneByte(s0: nat, s1: nat)
    requires s0 < 64 && s1 < 64
    ensures DecodeFinal(SextetChar(s0), SextetChar(s1), '=', '=') == Some([Byte0(s0, s1)])
  {
    assert SextetOf(SextetChar(s0)) == Some(s0) && SextetOf(SextetChar(s1)) == Some(s1);
  }

  lemma DecodeFinalOfTwoBytes(s0: nat, s1: nat, s2: nat)
    requires s0 < 64 && s1 < 64 && s2 < 64
    ensures DecodeFinal(SextetChar(s0), SextetChar(s1), SextetChar(s2), '=') == Some([Byte0(s0, s1), Byte1(s1, s2)])
  {
    var c := SextetChar(s2);
    assert SextetOf(SextetChar(s0)) == Some(s0) && SextetOf(SextetChar(s1)) == Some(s1);
    assert SextetOf(c) == Some(s2);
    assert c != '=';
  }

  lemma DecodeFinalOfEncodePadded(bs: seq<byte>)
    requires 1 <= |bs| <= 2
    ensures var q := EncodePadded(bs); DecodeFinal(q[0], q[1], q[2], q[3]) == Some(bs)
  {
    if |bs| == 1 {
      BitSplits(bs[0], 0, 0);
      DecodeFinalOfOneByte(bs[0] / 4, (bs[0] % 4) * 16);
      assert [bs[0]] == bs;
    } else {
      BitSplits(bs[0], bs[1], 0);
      DecodeFinalOfTwoBytes(bs[0] / 4, (bs[0] % 4) * 16 + bs[1] / 16, (bs[1] % 16) * 4);
      assert [bs[0], bs[1]] == bs;
    }
  }

  lemma StripWhiteOfClean(s: string)
    requires forall i :: 0 <= i < |s| ==> !IsIgnoredWhite(s[i])
    ensures StripWhite(s) == s
  {
  }

  lemma {:induction false} DecodeQuantaOfEncode(bs: seq<byte>)
    ensures DecodeQuanta(Encode(bs)) == Some(bs)
  {
    if 1 <= |bs| <= 2 {
      DecodeFinalOfEncodePadded(bs);
    } else if |bs| >= 3 {
      var t := Encode(bs);
      var q := EncodeFull(bs[0], bs[1], bs[2]);
      DecodeFullOfEncodeFull(bs[0], bs[1], bs[2]);
      assert t[0] == q[0] && t[1] == q[1] && t[2] == q[2] && t[3] == q[3];
      assert SextetOf(q[3]).Some? && t[3] != '=';
      DecodeQuantaOfEncode(bs[3..]);
      assert t[4..] == Encode(bs[3..]);
      if |bs| == 3 {
        assert DecodeQuanta(t) == DecodeFull(t[0], t[1], t[2], t[3]);
        assert [bs[0], bs[1], bs[2]] == bs;
      } else {
        assert |t| > 4;
        assert DecodeQuanta(t) == Some([bs[0], bs[1], bs[2]] + bs[3..]);
        assert [bs[0], bs[1], bs[2]] + bs[3..] == bs;
      }
    }
  }

  /** The encoding holds no character that decoding would drop. */
  lemma {:induction false} EncodeIsClean(bs: seq<byte>)
    ensures forall i :: 0 <= i < |Encode(bs)| ==> !IsIgnoredWhite(Encode(bs)[i])
    decreases |bs|
  {
    var r := Encode(bs);
    if |bs| >= 3 {
      var head, tail := EncodeFull(bs[0], bs[1], bs[2]), Encode(bs[3..]);
      EncodeIsClean(bs[3..]);
      assert r == head + tail;
      assert forall i :: 0 <= i < 4 ==> r[i] == head[i];
      assert forall i :: 4 <= i < |r| ==> r[i] == tail[i - 4];
    }
  }

  /** Decoding the canonical encoding of any byte sequence gives that sequence back. */
  lemma DecodeEncodeRoundTrip(bs: seq<byte>)
    ensures Decode(Encode(bs)) == Some(bs)
  {
    EncodeIsClean(bs);
    StripWhiteOfClean(Encode(bs));
    DecodeQuantaOfEncode(bs);
  }

  /** Splitting a text splits its white-space-free form the same way. */
  lemma {:induction false} StripWhiteAppend(a: string, b: string)
    ensures StripWhite(a + b) == StripWhite(a) + StripWhite(b)
    decreases |a|
  {
    if a == [] {
      assert a + b == b;
    } else {
      assert (a + b)[0] == a[0] && (a + b)[1..] == a[1..] + b;
      StripWhiteAppend(a[1..], b);
    }
  }

  /** A space, tab, carriage return or line feed anywhere in the text changes nothing about what it decodes to. */
  lemma DecodeIgnoresWhite(a: string, w: char, b: string)
    requires IsIgnoredWhite(w)
    ensures Decode(a + [w] + b) == Decode(a + b)
  {
    StripWhiteAppend(a + [w], b);
    StripWhiteAppend(a, [w]);
    StripWhiteAppend(a, b);
    assert StripWhite([w]) == [] by {
      assert [w][1..] == [];
    }
    SameStrippedText(a + [w] + b, a + b);
  }

  /** A text without white space is decoded as it stands. */
  lemma DecodeOfClean(t: string)
    requires forall i :: 0 <= i < |t| ==> !IsIgnoredWhite(t[i])
    ensures Decode(t) == if |t| % 4 != 0 then None else DecodeQuanta(t)
  {
    StripWhiteOfClean(t);
  }

  /** Texts that agree once white space is dropped decode alike. */
  lemma SameStrippedText(x: string, y: string)
    requires StripWhite(x) == StripWhite(y)
    ensures Decode(x) == Decode(y)
  {
  }

  /** "AfQ=" is the bytes 01 F4, the unscaled amount 500. */
  lemma PositiveAmountVector()
    ensures Decode("AfQ=") == Some([0x01, 0xF4])
  {
    DecodeOfClean("AfQ=");
  }

  /** "/wA=" is the bytes FF 00, the unscaled amount -256. */
  lemma NegativeAmountVector()
    ensures Decode("/wA=") == Some([0xFF, 0x00])
  {
    DecodeOfClean("/wA=");
  }

  /** "Mg==" is the single byte 32, the unscaled amount 50. */
  lemma OneByteVector()
    ensures Decode("Mg==") == Some([0x32])
  {
    DecodeOfClean("Mg==");
  }

  /** "AfQ" without its padding is rejected. */
  lemma UnpaddedVector()
    ensures Decode("AfQ") == None
  {
  }

  /** "AQAA" is the encoding of 01 00 00, and decodes back to it. */
  lemma ThreeByteVector()
    ensures Encode([0x01, 0x00, 0x00]) == "AQAA"
    ensures Decode("AQAA") == Some([0x01, 0x00, 0x00])
  {
    var bs: seq<byte> := [0x01, 0x00, 0x00];
    assert Encode(bs) == "AQAA" by {
      assert bs[3..] == [];
    }
    DecodeEncodeRoundTrip(bs);
  }

  /** The documented vectors for a text given as any term, so that callers need not restate the literals. */
  lemma KnownVectors(s: string)
    ensures s == "AfQ=" ==> Decode(s) == Some([0x01, 0xF4])
    ensures s == "/wA=" ==> Decode(s) == Some([0xFF, 0x00])
    ensures s == "AfQ" ==> Decode(s) == None
    ensures s == "Mg==" ==> Decode(s) == Some([0x32])
    ensures s == "AQAA" ==> Decode(s) == Some([0x01, 0x00, 0x00])
  {
    PositiveAmountVector();
    NegativeAmountVector();
    UnpaddedVector();
    OneByteVector();
    ThreeByteVector();
  }
}
