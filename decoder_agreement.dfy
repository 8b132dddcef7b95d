/**
 * The two amount decoders side by side: the sync path's `ToEntity` (fixed
 * width of two bytes, fixed scale 2, 0 on failure) against the general
 * `ParseAmount` (any width, the schema's scale, errors reported). At schema
 * scale 2 they agree exactly when the amount has two or more bytes and its
 * value fits in 16 bits, or has fewer and its value is 0: a one-byte amount
 * such as 0.50 ("Mg==") is stored as 0.
 */
module DecoderAgreement {
  import opened Base
  import opened Models
  import opened DotNetText
  import Base64
  import opened TwosComplement
  import opened TransferDto
  import opened DecimalParser

  /** Two integers that differ by a multiple of 65536 are equal iff the first lies in the 16-bit window. */
  lemma WindowCongruence(a: int, b: int, k: int)
    requires a == b + 65536 * k && -32768 <= b < 32768
    ensures a == b <==> -32768 <= a < 32768
  {
    if k > 0 {
      assert 65536 * k >= 65536;
    } else if k < 0 {
      assert 65536 * k <= -65536;
    }
  }

  /** The full reading and the reading of the last two bytes differ by a multiple of 65536. */
  lemma {:induction false} LastTwoCongruent(bs: seq<byte>)
    requires |bs| >= 2
    ensures exists k: int :: BigEndianSigned(bs) == BigEndianSigned(bs[|bs| - 2..]) + 65536 * k
  {
    var n := |bs|;
    var xs, ys := bs[..n - 2], bs[n - 2..];
    assert xs + ys == bs;
    BigEndianUnsignedConcat(xs, ys);
    PowAdd(256, n - 2, 2);
    var p := Pow(256, n - 2);
    assert Pow(256, 2) == 65536;
    assert Pow(256, n) == p * 65536;
    var top := if bs[0] >= 128 then p else 0;
    var low := if ys[0] >= 128 then 1 else 0;
    assert BigEndianSigned(bs) == BigEndianUnsigned(xs) * 65536 + BigEndianUnsigned(ys) - top * 65536;
    assert BigEndianSigned(ys) == BigEndianUnsigned(ys) - low * 65536;
    var k := BigEndianUnsigned(xs) + low - top;
    assert BigEndianSigned(bs) == BigEndianSigned(ys) + 65536 * k;
  }

  /** The value `ToEntity` stores, as the 16-bit reading of the last two bytes. */
  lemma LastTwoInWindow(bs: seq<byte>)
    requires |bs| >= 2
    ensures -32768 <= BigEndianSigned(bs[|bs| - 2..]) < 32768
  {
    SignedRange(bs[|bs| - 2..]);
    assert Pow(256, 1) == 256;
  }

  /**
   * With the schema's scale 2 and an amount that decodes, `ParseAmount`
   * returns exactly the amount `ToEntity` stores iff the value fits the
   * window `ToEntity` reads: a 16-bit value for two or more bytes, and 0
   * for fewer (where `ToEntity` falls back to 0).
   */
  lemma DecodersAgreeIff(m: DebeziumMessage)
    requires !IsNullOrEmpty(AmountText(m)) && SchemaFields(m).Some?
    requires ScaleIn(SchemaFields(m).value) == ScaleFound(2)
    requires Base64.Decode(AmountText(m).value).Some?
    ensures var bs := Base64.Decode(AmountText(m).value).value;
      ParseAmountSpec(m) == Ok(AmountOf(AmountText(m))) <==>
        if |bs| >= 2 then -32768 <= BigEndianSigned(bs) < 32768 else BigEndianSigned(bs) == 0
  {
    var bs := Base64.Decode(AmountText(m).value).value;
    var v := BigEndianSigned(bs);
    ParsedAtScaleTwo(m);
    if |bs| >= 2 {
      var w := BigEndianSigned(bs[|bs| - 2..]);
      AmountOfDecoded(AmountText(m), bs);
      HundredthsInjective(v, w);
      LastTwoCongruent(bs);
      var k :| v == w + 65536 * k;
      WindowCongruence(v, w, k);
    } else {
      AmountFallsBackToZero(AmountText(m));
      HundredthsInjective(v, 0);
    }
  }

  /** At scale 2, `ParseAmount` yields the full reading over 100. */
  lemma ParsedAtScaleTwo(m: DebeziumMessage)
    requires !IsNullOrEmpty(AmountText(m)) && SchemaFields(m).Some?
    requires ScaleIn(SchemaFields(m).value) == ScaleFound(2)
    requires Base64.Decode(AmountText(m).value).Some?
    ensures ParseAmountSpec(m) == Ok((BigEndianSigned(Base64.Decode(AmountText(m).value).value) as real) / 100.0)
  {
    ParseAmountValue(m);
    assert Pow(10, 2) == 100;
  }

  /** Two counts of hundredths are equal amounts iff they are equal counts. */
  lemma HundredthsInjective(a: int, b: int)
    ensures (a as real) / 100.0 == (b as real) / 100.0 <==> a == b
  {
  }

  /** In particular, every two-byte amount at scale 2 is decoded the same way by both. */
  lemma TwoByteAmountsAgree(m: DebeziumMessage)
    requires !IsNullOrEmpty(AmountText(m)) && SchemaFields(m).Some?
    requires ScaleIn(SchemaFields(m).value) == ScaleFound(2)
    requires Base64.Decode(AmountText(m).value).Some? && |Base64.Decode(AmountText(m).value).value| == 2
    ensures ParseAmountSpec(m) == Ok(AmountOf(AmountText(m)))
  {
    var bs := Base64.Decode(AmountText(m).value).value;
    SignedRange(bs);
    assert Pow(256, 1) == 256;
    DecodersAgreeIff(m);
  }

  /** Where `ParseAmount` reports a missing or undecodable amount, `ToEntity` quietly stores 0. */
  lemma FailuresBecomeZero(m: DebeziumMessage)
    requires IsNullOrEmpty(AmountText(m)) || Base64.Decode(AmountText(m).value).None?
    ensures ParseAmountSpec(m).Err?
    ensures AmountOf(AmountText(m)) == 0.0
  {
  }

  /** The readings of 01 00 00: 65536 in full, 0 in its last two bytes. */
  lemma ThreeByteReadings()
    ensures BigEndianSigned([0x01, 0x00, 0x00]) == 65536
    ensures BigEndianSigned([0x01, 0x00, 0x00][1..]) == 0
  {
    var bs := [0x01, 0x00, 0x00];
    assert bs[1..][1..][1..] == [] && bs[1..][1..] == [0x00] && bs[1..] == [0x00, 0x00];
    assert Pow(256, 2) == 65536;
  }

  /** `ParseAmount` reads all three bytes of 01 00 00: 655.36 at scale 2. */
  lemma ThreeBytesParsed(m: DebeziumMessage)
    requires !IsNullOrEmpty(AmountText(m)) && Base64.Decode(AmountText(m).value) == Some([0x01, 0x00, 0x00])
    requires SchemaFields(m).Some? && ScaleIn(SchemaFields(m).value) == ScaleFound(2)
    ensures ParseAmountSpec(m) == Ok(655.36)
  {
    ThreeByteReadings();
    assert Pow(10, 2) == 100;
    ParseAmountValue(m);
  }

  /** `ToEntity` reads only the last two bytes of 01 00 00: 0. */
  lemma ThreeBytesStored(raw: Option<string>)
    requires !IsNullOrEmpty(raw) && Base64.Decode(raw.value) == Some([0x01, 0x00, 0x00])
    ensures AmountOf(raw) == 0.0
  {
    var bs := Base64.Decode(raw.value).value;
    ThreeByteReadings();
    assert bs[|bs| - 2..] == bs[1..];
    AmountOfDecoded(raw, bs);
  }

  /**
   * "Mg==" (the byte 32, the value 50) at scale 2 is 0.50 to `ParseAmount`
   * and 0 to `ToEntity`, whose 16-bit read fails on a single byte.
   */
  lemma OneByteDivergence(m: DebeziumMessage)
    requires AmountText(m) == Some("Mg==")
    requires SchemaFields(m).Some? && ScaleIn(SchemaFields(m).value) == ScaleFound(2)
    ensures ParseAmountSpec(m) == Ok(0.5)
    ensures AmountOf(AmountText(m)) == 0.0
  {
    Base64.KnownVectors(AmountText(m).value);
    var bs: seq<byte> := [0x32];
    assert bs[1..] == [] && BigEndianSigned(bs) == 50;
    assert Pow(10, 2) == 100;
    ParseAmountValue(m);
  }

  /**
   * "AQAA" (bytes 01 00 00, the value 65536) at scale 2 is 655.36 to
   * `ParseAmount` and 0 to `ToEntity`.
   */
  lemma ThreeByteDivergence(m: DebeziumMessage)
    requires AmountText(m) == Some("AQAA")
    requires SchemaFields(m).Some? && ScaleIn(SchemaFields(m).value) == ScaleFound(2)
    ensures ParseAmountSpec(m) == Ok(655.36)
    ensures AmountOf(AmountText(m)) == 0.0
  {
    Base64.KnownVectors(AmountText(m).value);
    ThreeBytesParsed(m);
    ThreeBytesStored(AmountText(m));
  }
}
