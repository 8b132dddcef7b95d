/**
 * `DebeziumDecimalParser`: the general decoder for a Debezium `decimal`
 * amount. The scale is looked up in the schema (field `after`, then its
 * field `Amount`, then `parameters.scale`); the base64 text is decoded, the
 * bytes are reversed in place and read as a little-endian two's-complement
 * integer, and the result is that integer over 10^scale. Failures surface
 * as exception messages: four named ones and a wrapped catch-all.
 */
module DecimalParser {
  import opened Base
  import opened Models
  import opened DotNetText
  import Base64
  import opened TwosComplement

  const AmountNotFound: string := "Amount not found in after section"
  const SchemaFieldsNotFound: string := "Schema fields not found"
  const ScaleNotFound: string := "Scale not found in schema"
  const InvalidBase64Prefix: string := "Invalid base64 format for Amount: "
  const WrapPrefix: string := "Error parsing amount: "
  /** The message of the `NullReferenceException` .NET raises on a null receiver. */
  const NullReferenceMessage: string := "Object reference not set" + " to an instance of an object."

  /** The outcome of the schema search, including the exception it can raise. */
  datatype ScaleSearch =
    | ScaleFound(scale: int32)
    | ScaleMissing
      /** A field named `after` without a `fields` array: `afterFields!.AsArray()` dereferences null. */
    | AfterWithoutFields

  /** An exception raised inside the `try` block of `ParseAmount`. */
  datatype Exception =
    | FormatError
    | Thrown(message: string)

  /** `entry?["field"]?.ToString() == name`. */
  predicate Named(entry: Option<FieldDescriptor>, name: string) {
    entry.Some? && entry.value.field == Some(name)
  }

  /** The scale one entry of the `after` fields contributes: an `Amount` entry whose scale text parses. */
  function ParsedScale(entry: Option<FieldDescriptor>): Option<int32> {
    if Named(entry, "Amount") && entry.value.scale.Some? then TryParseInt32(entry.value.scale.value)
    else None
  }

  /** A linear search with early return: `f` of the first element whose `f` is not `none`, else `none`. */
  function FirstWhere<T, U(==)>(s: seq<T>, f: T -> U, none: U): U {
    if s == [] then none
    else if f(s[0]) != none then f(s[0])
    else FirstWhere(s[1..], f, none)
  }

  /** The search yields `none` exactly when every element does. */
  lemma {:induction false} FirstWhereNone<T, U>(s: seq<T>, f: T -> U, none: U)
    ensures FirstWhere(s, f, none) == none <==> forall i :: 0 <= i < |s| ==> f(s[i]) == none
  {
    if s != [] && f(s[0]) == none {
      FirstWhereNone(s[1..], f, none);
      assert forall i :: 1 <= i < |s| ==> s[i] == s[1..][i - 1];
    }
  }

  /** Otherwise it yields what the first element that yields something yields. */
  lemma {:induction false} FirstWhereIsFirst<T, U>(s: seq<T>, f: T -> U, none: U)
    requires FirstWhere(s, f, none) != none
    ensures exists i :: 0 <= i < |s| && f(s[i]) == FirstWhere(s, f, none)
                        && forall j :: 0 <= j < i ==> f(s[j]) == none
  {
    if f(s[0]) == none {
      var tail := s[1..];
      FirstWhereIsFirst(tail, f, none);
      var k :| 0 <= k < |tail| && f(tail[k]) == FirstWhere(tail, f, none)
               && forall j :: 0 <= j < k ==> f(tail[j]) == none;
      assert s[k + 1] == tail[k];
      assert forall j :: 1 <= j < k + 1 ==> s[j] == tail[j - 1];
    } else {
      assert f(s[0]) == FirstWhere(s, f, none);
    }
  }

  /** The inner search: the scale of the first entry that has one. */
  function ScaleAmong(afterFields: seq<Option<FieldDescriptor>>): Option<int32> {
    FirstWhere(afterFields, ParsedScale, None)
  }

  /** The inner search finds nothing exactly when no entry has a parsed scale. */
  lemma ScaleAmongNone(afterFields: seq<Option<FieldDescriptor>>)
    ensures ScaleAmong(afterFields).None? <==> forall i :: 0 <= i < |afterFields| ==> ParsedScale(afterFields[i]).None?
  {
    FirstWhereNone(afterFields, ParsedScale, None);
  }

  /** Otherwise it returns the scale of the first entry that has one. */
  lemma ScaleAmongIsFirst(afterFields: seq<Option<FieldDescriptor>>)
    requires ScaleAmong(afterFields).Some?
    ensures exists i :: 0 <= i < |afterFields| && ParsedScale(afterFields[i]) == ScaleAmong(afterFields)
                        && forall j :: 0 <= j < i ==> ParsedScale(afterFields[j]).None?
  {
    FirstWhereIsFirst(afterFields, ParsedScale, None);
  }

  /** What one entry of the top-level `fields` contributes to the outer search. */
  function EntryScale(entry: Option<FieldDescriptor>): ScaleSearch {
    if !Named(entry, "after") then ScaleMissing
    else
      match entry.value.fields
      case None => AfterWithoutFields
      case Some(afterFields) =>
        match ScaleAmong(afterFields)
        case Some(s) => ScaleFound(s)
        case None => ScaleMissing
  }

  /** The outer search: what the first entry that yields a scale or raises yields. */
  function ScaleIn(fields: seq<Option<FieldDescriptor>>): ScaleSearch {
    FirstWhere(fields, EntryScale, ScaleMissing)
  }

  /** The outer search yields `ScaleMissing` exactly when every entry does. */
  lemma ScaleInNone(fields: seq<Option<FieldDescriptor>>)
    ensures ScaleIn(fields) == ScaleMissing <==> forall i :: 0 <= i < |fields| ==> EntryScale(fields[i]) == ScaleMissing
  {
    FirstWhereNone(fields, EntryScale, ScaleMissing);
  }

  /** Otherwise it yields what the first entry that yields something yields. */
  lemma ScaleInIsFirst(fields: seq<Option<FieldDescriptor>>)
    requires ScaleIn(fields) != ScaleMissing
    ensures exists i :: 0 <= i < |fields| && EntryScale(fields[i]) == ScaleIn(fields)
                        && forall j :: 0 <= j < i ==> EntryScale(fields[j]) == ScaleMissing
  {
    FirstWhereIsFirst(fields, EntryScale, ScaleMissing);
  }

  /** `FindScaleFromSchema(fields)`: the nested `foreach` search with early return. */
  method FindScaleFromSchema(fields: seq<Option<FieldDescriptor>>) returns (r: ScaleSearch)
    ensures r == ScaleIn(fields)
  {
    var i := 0;
    while i < |fields|
      invariant 0 <= i <= |fields|
      invariant ScaleIn(fields) == ScaleIn(fields[i..])
    {
      assert fields[i..][1..] == fields[i + 1..];
      var field := fields[i];
      if Named(field, "after") {
        if field.value.fields.None? {
          return AfterWithoutFields;
        }
        var afterFields := field.value.fields.value;
        var j := 0;
        while j < |afterFields|
          invariant 0 <= j <= |afterFields|
          invariant ScaleAmong(afterFields) == ScaleAmong(afterFields[j..])
        {
          assert afterFields[j..][1..] == afterFields[j + 1..];
          var afterField := afterFields[j];
          if Named(afterField, "Amount") {
            var scaleStr := afterField.value.scale;
            if scaleStr.Some? {
              var parsed := TryParseInt32(scaleStr.value);
              if parsed.Some? {
                return ScaleFound(parsed.value);
              }
            }
          }
          j := j + 1;
        }
      }
      i := i + 1;
    }
    return ScaleMissing;
  }

  /** `payload?.after?.Amount` as text. */
  function AmountText(m: DebeziumMessage): Option<string> {
    if m.payload.Some? && m.payload.value.after.Some? then m.payload.value.after.value.amountRaw else None
  }

  /** `schema?.fields`. */
  function SchemaFields(m: DebeziumMessage): Option<seq<Option<FieldDescriptor>>> {
    if m.schema.Some? then m.schema.value.fields else None
  }

  /** `(decimal)unscaled / (decimal)Math.Pow(10, scale)`, exactly; a negative scale multiplies. */
  function Scaled(unscaled: int, scale: int): real {
    if scale >= 0 then (unscaled as real) / (Pow(10, scale) as real)
    else (unscaled * Pow(10, -scale)) as real
  }

  /** The `try` block of `ParseAmount`: a value, or the exception that leaves it. */
  function Attempt(m: DebeziumMessage): Result<real, Exception> {
    var text := AmountText(m);
    if IsNullOrEmpty(text) then Err(Thrown(AmountNotFound))
    else if SchemaFields(m).None? then Err(Thrown(SchemaFieldsNotFound))
    else
      match ScaleIn(SchemaFields(m).value)
      case AfterWithoutFields => Err(Thrown(NullReferenceMessage))
      case ScaleMissing => Err(Thrown(ScaleNotFound))
      case ScaleFound(scale) =>
        match Base64.Decode(text.value)
        case None => Err(FormatError)
        case Some(bs) => Ok(Scaled(BigEndianSigned(bs), scale))
  }

  /** The exception filter of the second `catch`: the messages it lets escape unwrapped. */
  predicate Escapes(message: string) {
    StartsWith(message, "Amount not found") || StartsWith(message, "Scale not found")
    || StartsWith(message, "Schema fields not found") || StartsWith(message, "Invalid base64 format")
  }

  /** The message of the exception that leaves `ParseAmount`, given the one raised inside. */
  function Caught(e: Exception, m: DebeziumMessage): string {
    match e
    case FormatError => InvalidBase64Prefix + AmountText(m).GetOr("")
    case Thrown(message) => if Escapes(message) then message else WrapPrefix + message
  }

  /** `ParseAmount(root)`: the amount, or the message of the exception it throws. */
  function ParseAmountSpec(m: DebeziumMessage): Result<real, string> {
    match Attempt(m)
    case Ok(v) => Ok(v)
    case Err(e) => Err(Caught(e, m))
  }

  /**
   * `ParseAmount(root)`: the imperative steps of the source, with the
   * in-place `Array.Reverse` and the little-endian `BigInteger` reading.
   */
  method ParseAmount(m: DebeziumMessage) returns (r: Result<real, string>)
    ensures r == ParseAmountSpec(m)
  {
    var outcome: Result<real, Exception>;
    var base64Amount := AmountText(m);
    var fields := SchemaFields(m);
    if IsNullOrEmpty(base64Amount) {
      outcome := Err(Thrown(AmountNotFound));
    } else if fields.None? {
      outcome := Err(Thrown(SchemaFieldsNotFound));
    } else {
      var scale := FindScaleFromSchema(fields.value);
      if scale.AfterWithoutFields? {
        outcome := Err(Thrown(NullReferenceMessage));
      } else if scale.ScaleMissing? {
        outcome := Err(Thrown(ScaleNotFound));
      } else {
        var decoded := Base64.Decode(base64Amount.value);
        if decoded.None? {
          outcome := Err(FormatError);
        } else {
          var bs := decoded.value;
          var bytes := new byte[|bs|](i requires 0 <= i < |bs| => bs[i]);
          assert bytes[..] == bs;
          ReverseInPlace(bytes);
          var unscaled := LittleEndianSigned(bytes[..]);
          LittleEndianOfReversed(bs);
          outcome := Ok(Scaled(unscaled, scale.scale));
        }
      }
    }
    match outcome
    case Ok(v) => r := Ok(v);
    case Err(e) => r := Err(Caught(e, m));
  }

  /** A missing or empty amount text is reported before anything else is looked at. */
  lemma MissingAmount(m: DebeziumMessage)
    requires IsNullOrEmpty(AmountText(m))
    ensures ParseAmountSpec(m) == Err(AmountNotFound)
  {
    assert StartsWith(AmountNotFound, "Amount not found");
  }

  /** With an amount present, missing schema fields and an unresolved scale are reported as such. */
  lemma MissingSchemaOrScale(m: DebeziumMessage)
    requires !IsNullOrEmpty(AmountText(m))
    ensures SchemaFields(m).None? ==> ParseAmountSpec(m) == Err(SchemaFieldsNotFound)
    ensures SchemaFields(m).Some? && ScaleIn(SchemaFields(m).value) == ScaleMissing ==>
              ParseAmountSpec(m) == Err(ScaleNotFound)
  {
    assert StartsWith(SchemaFieldsNotFound, "Schema fields not found");
    assert StartsWith(ScaleNotFound, "Scale not found");
  }

  /** Text that is not base64 is reported with the text itself, once a scale has been found. */
  lemma InvalidBase64(m: DebeziumMessage, scale: int32)
    requires !IsNullOrEmpty(AmountText(m)) && SchemaFields(m).Some?
    requires ScaleIn(SchemaFields(m).value) == ScaleFound(scale)
    requires Base64.Decode(AmountText(m).value).None?
    ensures ParseAmountSpec(m) == Err(InvalidBase64Prefix + AmountText(m).value)
  {
  }

  /** The four named errors leave the method unchanged; every other message is wrapped. */
  lemma CatchFilter(message: string)
    ensures Escapes(AmountNotFound) && Escapes(SchemaFieldsNotFound) && Escapes(ScaleNotFound)
    ensures Escapes(InvalidBase64Prefix + message)
    ensures !Escapes(message) ==> Caught(Thrown(message), DebeziumMessage(None, None)) == WrapPrefix + message
    ensures !Escapes(NullReferenceMessage)
  {
    assert StartsWith(AmountNotFound, "Amount not found");
    assert StartsWith(SchemaFieldsNotFound, "Schema fields not found");
    assert StartsWith(ScaleNotFound, "Scale not found");
    assert (InvalidBase64Prefix + message)[..|"Invalid base64 format"|] == "Invalid base64 format";
    FirstCharDiffers(NullReferenceMessage, "Amount not found");
    FirstCharDiffers(NullReferenceMessage, "Scale not found");
    FirstCharDiffers(NullReferenceMessage, "Schema fields not found");
    FirstCharDiffers(NullReferenceMessage, "Invalid base64 format");
  }

  lemma FirstCharDiffers(s: string, prefix: string)
    requires s != [] && prefix != [] && s[0] != prefix[0]
    ensures !StartsWith(s, prefix)
  {
    if |prefix| <= |s| {
      assert s[..|prefix|][0] == s[0];
    }
  }

  /** An `after` entry without `fields`, met before any scale, ends in the wrapped null-reference error. */
  lemma AfterWithoutFieldsIsWrapped(m: DebeziumMessage)
    requires !IsNullOrEmpty(AmountText(m)) && SchemaFields(m).Some?
    requires ScaleIn(SchemaFields(m).value) == AfterWithoutFields
    ensures ParseAmountSpec(m) == Err(WrapPrefix + NullReferenceMessage)
  {
    CatchFilter("");
  }

  /** Every error that leaves `ParseAmount` is one of the four named ones or carries the wrapping prefix. */
  lemma ErrorsAreClassified(m: DebeziumMessage)
    requires ParseAmountSpec(m).Err?
    ensures var msg := ParseAmountSpec(m).error;
      Escapes(msg) || StartsWith(msg, WrapPrefix)
  {
    var msg := ParseAmountSpec(m).error;
    CatchFilter(AmountText(m).GetOr(""));
    match Attempt(m)
    case Err(Thrown(t)) =>
      if !Escapes(t) {
        assert msg == WrapPrefix + t;
        assert msg[..|WrapPrefix|] == WrapPrefix;
      }
    case Err(FormatError) =>
  }

  /**
   * Success: the amount text is base64 for some bytes and a scale was found,
   * and then the value is the big-endian two's-complement reading of those
   * bytes over 10^scale, for any number of bytes.
   */
  lemma ParseAmountValue(m: DebeziumMessage)
    ensures ParseAmountSpec(m).Ok? <==>
      !IsNullOrEmpty(AmountText(m)) && SchemaFields(m).Some?
      && ScaleIn(SchemaFields(m).value).ScaleFound?
      && Base64.Decode(AmountText(m).value).Some?
    ensures ParseAmountSpec(m).Ok? ==>
      ParseAmountSpec(m).value ==
        Scaled(BigEndianSigned(Base64.Decode(AmountText(m).value).value), ScaleIn(SchemaFields(m).value).scale)
  {
  }

  /** The amount is negative exactly when the first decoded byte has its top bit set. */
  lemma NegativeIffTopBit(m: DebeziumMessage)
    requires ParseAmountSpec(m).Ok?
    ensures var bs := Base64.Decode(AmountText(m).value).value;
      ParseAmountSpec(m).value < 0.0 <==> (bs != [] && bs[0] >= 128)
  {
    var bs := Base64.Decode(AmountText(m).value).value;
    var scale := ScaleIn(SchemaFields(m).value).scale;
    NegativeIffTopBitSet(bs);
    ScaledSign(BigEndianSigned(bs), scale);
  }

  /** Scaling keeps the sign. */
  lemma ScaledSign(u: int, scale: int)
    ensures Scaled(u, scale) < 0.0 <==> u < 0
  {
    if scale < 0 {
      var p := Pow(10, -scale);
      assert p > 0;
      assert (u < 0) == (u * p < 0);
    }
  }

  /**
   * Round trip with the connector's encoding: an amount text that is the
   * base64 of the `n`-byte two's complement of `v` parses to `v` over
   * 10^scale, for every `v` that fits in `n` bytes.
   */
  lemma ParseAmountOfEncoded(m: DebeziumMessage, v: int, n: nat, scale: int32)
    requires n >= 1 && -128 * Pow(256, n - 1) <= v < 128 * Pow(256, n - 1)
    requires AmountText(m) == Some(Base64.Encode(BigEndianOf(v, n)))
    requires SchemaFields(m).Some? && ScaleIn(SchemaFields(m).value) == ScaleFound(scale)
    ensures ParseAmountSpec(m) == Ok(Scaled(v, scale))
  {
    Base64.DecodeEncodeRoundTrip(BigEndianOf(v, n));
    BigEndianSignedOf(v, n);
  }

  /** The schema the connector emits for the transfers table: `after` holds `Amount` with the given scale. */
  function ConnectorFields(scale: string): seq<Option<FieldDescriptor>> {
    [Some(FieldDescriptor(Some("before"), None, None)),
     Some(FieldDescriptor(Some("after"), Some([Some(FieldDescriptor(Some("Id"), None, None)),
                                               Some(FieldDescriptor(Some("Amount"), None, Some(scale)))]), None))]
  }

  /** The search finds the connector's scale exactly when its text parses. */
  lemma ScaleOfConnectorFields(scale: string)
    ensures ScaleIn(ConnectorFields(scale)) ==
      (if TryParseInt32(scale).Some? then ScaleFound(TryParseInt32(scale).value) else ScaleMissing)
  {
    var fs := ConnectorFields(scale);
    var af := fs[1].value.fields.value;
    assert ParsedScale(af[0]).None? && ParsedScale(af[1]) == TryParseInt32(scale);
    assert ScaleAmong(af) == FirstWhere(af[1..], ParsedScale, None);
    assert af[1..][1..] == [];
    assert FirstWhere(af[1..], ParsedScale, None) == ParsedScale(af[1]);
    assert EntryScale(fs[0]) == ScaleMissing;
    assert ScaleIn(fs) == FirstWhere(fs[1..], EntryScale, ScaleMissing);
    assert fs[1..][1..] == [];
    assert FirstWhere(fs[1..], EntryScale, ScaleMissing) == EntryScale(fs[1]);
  }

  /** The scales "2" and "1" parse, and the connector's schema with them resolves. */
  lemma DocumentedScales()
    ensures ScaleIn(ConnectorFields("2")) == ScaleFound(2)
    ensures ScaleIn(ConnectorFields("1")) == ScaleFound(1)
  {
    ScaleOfDigit("2");
    ScaleOfDigit("1");
  }

  lemma ScaleOfDigit(d: string)
    requires |d| == 1 && IsDigit(d[0])
    ensures ScaleIn(ConnectorFields(d)) == ScaleFound(d[0] as int - '0' as int)
  {
    assert d[..0] == [];
    ParseDigits(d);
    ScaleOfConnectorFields(d);
  }

  /** "AfQ=" (bytes 01 F4) at scale 2 is 5.00. */
  lemma KnownPositiveAmount(m: DebeziumMessage)
    requires AmountText(m) == Some("AfQ=") && SchemaFields(m) == Some(ConnectorFields("2"))
    ensures ParseAmountSpec(m) == Ok(5.0)
  {
    Base64.KnownVectors(AmountText(m).value);
    DocumentedScales();
    DocumentedReadings();
    assert Pow(10, 2) == 100;
    ParseAmountValue(m);
  }

  /** "/wA=" (bytes FF 00) at scale 1 is -25.6. */
  lemma KnownNegativeAmount(m: DebeziumMessage)
    requires AmountText(m) == Some("/wA=") && SchemaFields(m) == Some(ConnectorFields("1"))
    ensures ParseAmountSpec(m) == Ok(-25.6)
  {
    Base64.KnownVectors(AmountText(m).value);
    DocumentedScales();
    DocumentedReadings();
    assert Pow(10, 1) == 10;
    ParseAmountValue(m);
  }

  lemma NotAnInteger(s: string)
    requires s != [] && 'a' <= s[0] <= 'z' && 'a' <= s[|s| - 1] <= 'z'
    ensures TryParseInt32(s).None?
  {
    TrimUnpadded(s);
    assert !AllDigits(s) by { assert !IsDigit(s[0]); }
  }

  /** Unpadded text is not base64; a scale that is not an integer is no scale at all. */
  lemma KnownFailures(m: DebeziumMessage, n: DebeziumMessage)
    requires AmountText(m) == Some("AfQ") && SchemaFields(m) == Some(ConnectorFields("2"))
    requires AmountText(n) == Some("AfQ=") && SchemaFields(n) == Some(ConnectorFields("two"))
    ensures ParseAmountSpec(m) == Err(InvalidBase64Prefix + "AfQ")
    ensures ParseAmountSpec(n) == Err(ScaleNotFound)
  {
    Base64.KnownVectors(AmountText(m).value);
    DocumentedScales();
    InvalidBase64(m, 2);
    NotAnInteger("two");
    ScaleOfConnectorFields("two");
    MissingSchemaOrScale(n);
  }
}
