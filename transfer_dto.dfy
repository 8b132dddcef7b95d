/**
 * `DebeziumTransferDto.ToEntity`: the conversion the sync service applies to
 * every row image. It copies the key fields, decodes the amount with a fixed
 * 16-bit width and a fixed scale of 2, falling back to 0 on any failure, and
 * takes the creation time from the row when it parses and from the clock
 * otherwise.
 */
module TransferDto {
  import opened Base
  import opened Models
  import opened DotNetText
  import Base64
  import opened TwosComplement

  /** The scale `ToEntity` assumes for every amount, whatever the schema says. */
  const FixedScale: nat := 2

  /**
   * `BitConverter.ToInt16(bytes, 0)` on a little-endian machine: the first
   * two bytes, least significant first, as a signed 16-bit value. `None`
   * stands for the exception it throws when fewer than two bytes exist.
   */
  function ToInt16(bytes: seq<byte>): (r: Option<int>)
    ensures r.Some? <==> |bytes| >= 2
  {
    if |bytes| < 2 then None else Some(LittleEndianSigned(bytes[..2]))
  }

  /**
   * The value `ToInt16` reads: the first byte plus 256 times the second,
   * wrapped into the signed 16-bit range.
   */
  lemma ToInt16Value(bytes: seq<byte>)
    requires |bytes| >= 2
    ensures -32768 <= ToInt16(bytes).value < 32768
    ensures ToInt16(bytes).value == bytes[0] as int + 256 * bytes[1] as int - (if bytes[1] >= 128 then 65536 else 0)
  {
    var two := bytes[..2];
    assert two[1..][1..] == [] && two[1..][0] == bytes[1];
    assert LittleEndianUnsigned(two[1..]) == bytes[1] as int;
    assert LittleEndianUnsigned(two) == bytes[0] as int + 256 * bytes[1] as int;
    assert Pow(256, 2) == 65536 by {
      assert Pow(256, 1) == 256;
    }
  }

  /**
   * The amount `ToEntity` produces, stated on the big-endian bytes the
   * connector sent: the two least significant bytes read as a signed 16-bit
   * value, over 10^2; 0 when the text is null or empty, is not base64, or
   * decodes to fewer than two bytes.
   */
  function AmountOf(raw: Option<string>): real {
    if IsNullOrEmpty(raw) then 0.0
    else
      match Base64.Decode(raw.value)
      case None => 0.0
      case Some(bs) =>
        if |bs| < 2 then 0.0 else (BigEndianSigned(bs[|bs| - 2..]) as real) / (Pow(10, FixedScale) as real)
  }

  /**
   * The creation time `ToEntity` produces: the row's text when
   * `DateTime.TryParse` (the `parseTime` argument) accepts it, the clock
   * reading `now` otherwise.
   */
  function CreatedAtOf(raw: Option<string>, now: Timestamp, parseTime: string -> Option<Timestamp>): Timestamp {
    if IsNullOrEmpty(raw) then now
    else
      match parseTime(raw.value)
      case Some(t) => t
      case None => now
  }

  /** The entity `ToEntity` returns. */
  function EntityOf(dto: DebeziumTransferDto, now: Timestamp, parseTime: string -> Option<Timestamp>): TransferEntity {
    TransferEntity(dto.id, dto.fromAccount, dto.toAccount, AmountOf(dto.amountRaw),
                   CreatedAtOf(dto.createdAt, now, parseTime), dto.description)
  }

  /** Two bytes in opposite order: the little-endian reading of the first is the big-endian reading of the second. */
  lemma Int16OfSwapped(r: seq<byte>, last: seq<byte>)
    requires |r| >= 2 && |last| == 2 && r[0] == last[1] && r[1] == last[0]
    ensures ToInt16(r) == Some(BigEndianSigned(last))
  {
    assert r[..2] == Reversed(last);
    LittleEndianOfReversed(last);
  }

  /** After reversal, the first two bytes read little-endian are the last two read big-endian. */
  lemma Int16OfReversed(bs: seq<byte>)
    requires |bs| >= 2
    ensures ToInt16(Reversed(bs)) == Some(BigEndianSigned(bs[|bs| - 2..]))
  {
    Int16OfSwapped(Reversed(bs), bs[|bs| - 2..]);
  }

  /**
   * `ToEntity()`: decodes the base64 amount into a buffer, reverses the
   * buffer in place, reads a 16-bit value from its start and divides by 100;
   * the contract states the result on the original big-endian bytes.
   */
  method ToEntity(dto: DebeziumTransferDto, now: Timestamp, parseTime: string -> Option<Timestamp>)
    returns (e: TransferEntity)
    ensures e == EntityOf(dto, now, parseTime)
  {
    var amount: real := 0.0;
    if !IsNullOrEmpty(dto.amountRaw) {
      var decoded := Base64.Decode(dto.amountRaw.value);
      if decoded.Some? {
        var bs := decoded.value;
        var bytes := new byte[|bs|](i requires 0 <= i < |bs| => bs[i]);
        assert bytes[..] == bs;
        ReverseInPlace(bytes);
        var unscaled := ToInt16(bytes[..]);
        if unscaled.Some? {
          Int16OfReversed(bs);
          amount := (unscaled.value as real) / (Pow(10, FixedScale) as real);
        }
      }
    }
    var createdAtDate := now;
    if !IsNullOrEmpty(dto.createdAt) {
      var parsed := parseTime(dto.createdAt.value);
      if parsed.Some? {
        createdAtDate := parsed.value;
      }
    }
    e := TransferEntity(dto.id, dto.fromAccount, dto.toAccount, amount, createdAtDate, dto.description);
  }

  /** A 16-bit count of hundredths lies in [-327.68, 327.67]. */
  lemma HundredthsRange(w: int)
    requires -32768 <= w < 32768
    ensures -327.68 <= (w as real) / 100.0 <= 327.67
  {
  }

  /** Whatever the text, the amount lies in [-327.68, 327.67]. */
  lemma AmountInInt16Range(raw: Option<string>)
    ensures -327.68 <= AmountOf(raw) <= 327.67
  {
    if !IsNullOrEmpty(raw) && Base64.Decode(raw.value).Some? && |Base64.Decode(raw.value).value| >= 2 {
      var bs := Base64.Decode(raw.value).value;
      AmountOfDecoded(raw, bs);
      HundredthsRange(BigEndianSigned(bs[|bs| - 2..]));
    }
  }

  /** When the text decodes to two or more bytes, the amount is their last two bytes as a signed 16-bit value, over 100. */
  lemma AmountOfDecoded(raw: Option<string>, bs: seq<byte>)
    requires !IsNullOrEmpty(raw) && Base64.Decode(raw.value) == Some(bs) && |bs| >= 2
    ensures AmountOf(raw) == (BigEndianSigned(bs[|bs| - 2..]) as real) / 100.0
    ensures -32768 <= BigEndianSigned(bs[|bs| - 2..]) < 32768
  {
    SignedRange(bs[|bs| - 2..]);
    assert Pow(256, 1) == 256 && Pow(10, 2) == 100;
  }

  /** A null or empty text, bad base64, or fewer than two bytes all yield 0 instead of an exception. */
  lemma AmountFallsBackToZero(raw: Option<string>)
    requires IsNullOrEmpty(raw) || Base64.Decode(raw.value).None? || |Base64.Decode(raw.value).value| < 2
    ensures AmountOf(raw) == 0.0
  {
  }

  /** The creation time is the parsed one exactly when the text parses; only then does the clock not matter. */
  lemma CreatedAtFromRowOrClock(raw: Option<string>, now: Timestamp, later: Timestamp, parseTime: string -> Option<Timestamp>)
    ensures !IsNullOrEmpty(raw) && parseTime(raw.value).Some? ==>
              CreatedAtOf(raw, now, parseTime) == parseTime(raw.value).value
              && CreatedAtOf(raw, now, parseTime) == CreatedAtOf(raw, later, parseTime)
    ensures (IsNullOrEmpty(raw) || parseTime(raw.value).None?) ==> CreatedAtOf(raw, now, parseTime) == now
  {
  }

  /** The key, the two accounts and the description reach the entity unchanged. */
  lemma EntityCopiesRowFields(dto: DebeziumTransferDto, now: Timestamp, parseTime: string -> Option<Timestamp>)
    ensures var e := EntityOf(dto, now, parseTime);
      e.id == dto.id && e.fromAccount == dto.fromAccount && e.toAccount == dto.toAccount
      && e.description == dto.description
  {
  }

  /** The documented amount "AfQ=" (bytes 01 F4) becomes 5.00. */
  lemma KnownAmount(raw: Option<string>)
    requires raw == Some("AfQ=")
    ensures AmountOf(raw) == 5.0
  {
    Base64.KnownVectors(raw.value);
    var bs := Base64.Decode(raw.value).value;
    assert bs == [0x01, 0xF4];
    assert bs[|bs| - 2..] == bs;
    DocumentedReadings();
    assert Pow(10, 2) == 100;
  }
}
