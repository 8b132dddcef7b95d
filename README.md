# Transfer CDC sync: a Dafny model

The transfer system keeps a Redis read model of a PostgreSQL `Transfers`
table. Debezium publishes each row change to a Kafka topic as a JSON
envelope. The envelope holds a schema, a payload with `before`/`after` row images,
an operation tag and source metadata. A background worker,
`TransferSyncService`, does three things:

1. It waits until the topic exists.
2. It subscribes to the topic.
3. It applies every event to the cache through `RedisService`.

Along the way each row image is converted to a `TransferEntity`. The
`Amount` column arrives as a Debezium `decimal`: base64 text holding a
big-endian two's-complement integer, plus a scale declared in the
envelope's schema.

This project models that path and proves its properties:

- `Base64`: `Convert.FromBase64String` as a decoder, with an encoder and
  the round trip between them.
- `TwosComplement`: the big-endian and little-endian two's-complement readings
  of a byte sequence, with the in-place `Array.Reverse` as a method on an
  `array`.
- `DotNetText`: the small parts of .NET these files rely on:
  - `string.IsNullOrEmpty`, `StartsWith` and `int.TryParse`;
  - `int.ToString()`, which builds cache keys;
  - ordinal case-insensitive equality.
- `Models`: the entity, the row image and the envelope as datatypes. C#
  nullable members become `Option`; the operation tag is classified.
- `DecimalParser`: `DebeziumDecimalParser.ParseAmount` and
  `FindScaleFromSchema`, as methods proved equal to specification
  functions. The four named errors and the wrapped catch-all are modelled.
- `TransferDto`: `DebeziumTransferDto.ToEntity`, the conversion the sync
  service actually uses. It reads only two bytes as a signed 16-bit value,
  fixes the scale at 2, and falls back to 0.
- `DecoderAgreement`: the two decoders compared. At schema scale 2 they
  agree exactly in two cases. Either the amount has two or more bytes and
  its value fits in 16 bits, or it has fewer and its value is 0. A
  one-byte amount such as 0.50 (`Mg==`) is stored as 0. A three-byte
  amount shows where the decoders part.
- `RedisCache`: the keyspace as a map from `transfer:{id}` to an entity,
  plus the `transfers` index set. A `TransferStore` class holds it and has
  one method per `RedisService` operation.
- `SyncService`: the pieces of the worker:
  - the operation dispatcher;
  - the bounded topic-readiness loop, against a metadata oracle;
  - `ExecuteAsync`'s poll loop, over a `Consumer` class that delivers a
    fixed feed and counts how often it is closed.

The two decoders are modelled as the code writes them. `ToEntity` keeps
only the two low-order bytes of the amount. The model states that
truncation and the inputs on which it differs from `ParseAmount`
(`DecoderAgreement.DecodersAgreeIff`, `DecoderAgreement.ThreeByteDivergence`).
It does not replace it with a corrected decoder.

Clock readings, `DateTime.TryParse`, broker answers and JSON deserialisation
outcomes are parameters of the model:

- `now` stands for `DateTime.UtcNow`;
- `parseTime` stands for `DateTime.TryParse`;
- `metadata(i)` is the answer to the i-th `GetMetadata` call;
- the consumer's feed is the sequence of `Consume` results delivered
  before cancellation is observed.

## Model

| member | source | states |
|---|---|---|
| `Base64.DecodeEncodeRoundTrip` | src/Transfer.Shared/Parser/DebeziumDecimalParser.cs:27 | the decoder returns every byte sequence from its padded base64 encoding, so every byte string, of any length, is a possible decoded amount |
| `Base64.DecodeQuantaOfEncode` | src/Transfer.Shared/Parser/DebeziumDecimalParser.cs:27 | after whitespace removal, the quantum-by-quantum decoding reverses the encoder on every input |
| `Base64.DecodeFullOfEncodeFull` | src/Transfer.Shared/Parser/DebeziumDecimalParser.cs:27 | a full four-character quantum decodes to the three bytes it encodes |
| `Base64.DecodeFinalOfEncodePadded` | src/Transfer.Shared/Parser/DebeziumDecimalParser.cs:27 | a final quantum padded with one or two `=` decodes to the two or one bytes it encodes |
| `Base64.Decode` | src/Transfer.Shared/Parser/DebeziumDecimalParser.cs:27 | a text decodes only if, without whitespace, it is whole quanta of four characters; n quanta give between 3n-2 and 3n bytes |
| `Base64.DecodeQuantaLength` | src/Transfer.Shared/Parser/DebeziumDecimalParser.cs:27 | every full quantum gives three bytes and the last one to three |
| `Base64.StripWhite` | src/Transfer.Shared/Parser/DebeziumDecimalParser.cs:27 | the whitespace the decoder skips is gone, and the text does not grow |
| `Base64.StripWhiteKeeps` | src/Transfer.Shared/Parser/DebeziumDecimalParser.cs:27 | every character of the input that is not skipped whitespace is kept |
| `Base64.StripWhiteAppend` | src/Transfer.Shared/Parser/DebeziumDecimalParser.cs:27 | removing whitespace from a concatenation removes it from each part |
| `Base64.DecodeIgnoresWhite` | src/Transfer.Shared/Parser/DebeziumDecimalParser.cs:27 | inserting a space, tab, carriage return or line feed anywhere does not change what a text decodes to, or whether it decodes |
| `Base64.EncodeIsClean` | src/Transfer.Shared/Parser/DebeziumDecimalParser.cs:27 | an encoding contains no character the decoder would skip |
| `Base64.KnownVectors` | src/Transfer.Shared/Models/DebeziumTransferDto.cs:36 | "AfQ=" decodes to 01 F4 and "/wA=" to FF 00, the unpadded "AfQ" is rejected, "Mg==" decodes to the single byte 32, and "AQAA" decodes to 01 00 00 |
| `Base64.ThreeByteVector` | src/Transfer.Shared/Models/DebeziumTransferDto.cs:36 | 01 00 00 encodes as "AQAA", and the round trip gives it back |
| `TwosComplement.ReverseInPlace` | src/Transfer.Shared/Parser/DebeziumDecimalParser.cs:28 | the array afterwards holds its old contents in reverse order |
| `TwosComplement.LittleEndianSigned` | src/Transfer.Shared/Parser/DebeziumDecimalParser.cs:30 | `new BigInteger(bytes)` is negative exactly when the last byte has its top bit set; its partner `LittleEndianOfReversed` ties it to the big-endian reading |
| `TwosComplement.LittleEndianUnsignedBound` | src/Transfer.Shared/Parser/DebeziumDecimalParser.cs:30 | the unsigned little-endian reading of n bytes is below 256^n |
| `TwosComplement.LittleEndianOfReversed` | src/Transfer.Shared/Parser/DebeziumDecimalParser.cs:28-30 | the little-endian two's-complement reading of the reversed bytes equals the big-endian reading of the original bytes |
| `TwosComplement.LittleEndianUnsignedOfReversed` | src/Transfer.Shared/Parser/DebeziumDecimalParser.cs:28-30 | the same for the unsigned readings |
| `TwosComplement.NegativeIffTopBitSet` | src/Transfer.Shared/Parser/DebeziumDecimalParser.cs:30 | the big-endian reading is negative iff there is a first byte and its top bit is set |
| `TwosComplement.SignedRange` | src/Transfer.Shared/Parser/DebeziumDecimalParser.cs:30 | an n-byte reading lies in [-128·256^(n-1), 128·256^(n-1)) |
| `TwosComplement.BigEndianUnsignedBound` | src/Transfer.Shared/Parser/DebeziumDecimalParser.cs:30 | the unsigned reading of n bytes is below 256^n |
| `TwosComplement.BigEndianUnsignedConcat` | src/Transfer.Shared/Parser/DebeziumDecimalParser.cs:30 | the unsigned reading of xs + ys is reading(xs)·256^\|ys\| + reading(ys) |
| `TwosComplement.BigEndianSignedOf` | src/Transfer.Shared/Parser/DebeziumDecimalParser.cs:30 | every value in the n-byte range has an n-byte big-endian encoding whose reading is that value |
| `TwosComplement.DocumentedReadings` | src/Transfer.Shared/Parser/DebeziumDecimalParser.cs:30 | 01 F4 reads as 500 and FF 00 as -256 |
| `DotNetText.DigitsValueOfDecimalDigits` | src/Transfer.Shared/Infrastructure/RedisService.cs:21 | the decimal digits `int.ToString` writes for n have the value n |
| `DotNetText.Int32ToStringRoundTrip` | src/Transfer.Shared/Infrastructure/RedisService.cs:21 | `int.TryParse` parses `int.ToString()` of every 32-bit integer back to it |
| `DotNetText.Int32ToStringInjective` | src/Transfer.Shared/Infrastructure/RedisService.cs:21 | two ids with the same text are the same id |
| `DotNetText.ParseDigits` | src/Transfer.Shared/Parser/DebeziumDecimalParser.cs:60 | `int.TryParse` of a run of digits below 2^31 is its value |
| `DotNetText.ParseNegatedDigits` | src/Transfer.Shared/Parser/DebeziumDecimalParser.cs:60 | `int.TryParse` of a minus sign and digits up to 2^31 is the negated value |
| `DotNetText.ParsePlusDigits` | src/Transfer.Shared/Parser/DebeziumDecimalParser.cs:60 | `int.TryParse` of a plus sign and digits below 2^31 is their value |
| `DotNetText.ParseIgnoresPadding` | src/Transfer.Shared/Parser/DebeziumDecimalParser.cs:60 | surrounding whitespace does not change what `int.TryParse` gives |
| `DotNetText.ParseOutOfRange` | src/Transfer.Shared/Parser/DebeziumDecimalParser.cs:60 | digits whose value is 2^31 or more fail bare and after '+'; after '-' they fail above 2^31 |
| `DotNetText.TryParseInt32` | src/Transfer.Shared/Parser/DebeziumDecimalParser.cs:60 | `int.TryParse` succeeds only on an optional sign and at least one digit, once surrounding whitespace is trimmed; its values are stated for unpadded unsigned, '+'-signed and '-'-signed digit text (`ParseDigits`, `ParsePlusDigits`, `ParseNegatedDigits`), padding is skipped (`ParseIgnoresPadding`), and out-of-range digits fail (`ParseOutOfRange`) |
| `DotNetText.Int32ToString` | src/Transfer.Shared/Infrastructure/RedisService.cs:21 | the text starts with '-' exactly for a negative number and is otherwise all digits; `Int32ToStringRoundTrip` reads it back |
| `DotNetText.TrimUnpadded` | src/Transfer.Shared/Parser/DebeziumDecimalParser.cs:60 | trimming leaves text that neither starts nor ends with whitespace unchanged |
| `DotNetText.TrimStart` | src/Transfer.Shared/Parser/DebeziumDecimalParser.cs:60 | the result is a suffix of the input that does not start with whitespace, and every character removed is whitespace |
| `DotNetText.TrimEnd` | src/Transfer.Shared/Parser/DebeziumDecimalParser.cs:60 | the result is a prefix of the input that does not end with whitespace, and every character removed is whitespace |
| `DotNetText.EqualsIgnoreCaseIsEquivalence` | src/Transfer.Sync/Service/TransferSyncService.cs:154 | the OrdinalIgnoreCase comparison is reflexive, symmetric and transitive |
| `DotNetText.UpperAscii` | src/Transfer.Sync/Service/TransferSyncService.cs:154 | case folding maps each lower-case ASCII letter to the upper-case letter in the same position, leaves every other character alone, and leaves no lower-case ASCII letter |
| `Models.Classify` | src/Transfer.Shared/Models/DebeziumMessage.cs:61-65 | the operation is create, update, delete or read exactly when the tag is "c", "u", "d" or "r"; every other tag, null included, is unknown |
| `Models.TagOfClassify` | src/Transfer.Shared/Models/DebeziumMessage.cs:61-65 | classification loses nothing: the tag is recovered from the operation |
| `Models.ClassifyOfTag` | src/Transfer.Shared/Models/DebeziumMessage.cs:61-65 | every operation is the classification of its own tag |
| `TransferDto.ToEntity` | src/Transfer.Shared/Models/DebeziumTransferDto.cs:26-77 | the entity the method builds (decode, in-place reverse, 16-bit read, divide by 100, fallbacks) is `EntityOf`, which reads the last two of the original big-endian bytes |
| `TransferDto.ToInt16` | src/Transfer.Shared/Models/DebeziumTransferDto.cs:41 | `BitConverter.ToInt16(bytes, 0)` gives a value exactly when at least two bytes exist, and fails otherwise |
| `TransferDto.ToInt16Value` | src/Transfer.Shared/Models/DebeziumTransferDto.cs:41 | that value is the first byte plus 256 times the second, wrapped into [-32768, 32768) |
| `TransferDto.Int16OfReversed` | src/Transfer.Shared/Models/DebeziumTransferDto.cs:39-41 | `ToInt16` of the reversed buffer is the signed big-endian reading of the last two original bytes |
| `TransferDto.Int16OfSwapped` | src/Transfer.Shared/Models/DebeziumTransferDto.cs:41 | `ToInt16` of two bytes is the big-endian reading of the same bytes swapped |
| `TransferDto.AmountOfDecoded` | src/Transfer.Shared/Models/DebeziumTransferDto.cs:36-46 | when the text decodes to two or more bytes, the amount is the last two bytes read as a signed 16-bit value, over 100 |
| `TransferDto.AmountInInt16Range` | src/Transfer.Shared/Models/DebeziumTransferDto.cs:41-46 | whatever the text, the amount lies in [-327.68, 327.67] |
| `TransferDto.AmountFallsBackToZero` | src/Transfer.Shared/Models/DebeziumTransferDto.cs:28-55 | null or empty text, bad base64 and fewer than two bytes all give amount 0, with no exception |
| `TransferDto.CreatedAtFromRowOrClock` | src/Transfer.Shared/Models/DebeziumTransferDto.cs:58-66 | the creation time is the parsed one, independent of the clock, when the text parses; it is the clock reading otherwise |
| `TransferDto.EntityCopiesRowFields` | src/Transfer.Shared/Models/DebeziumTransferDto.cs:68-76 | id, both accounts and the description reach the entity unchanged |
| `TransferDto.KnownAmount` | src/Transfer.Shared/Models/DebeziumTransferDto.cs:36-46 | "AfQ=" becomes 5.00 |
| `DecimalParser.FindScaleFromSchema` | src/Transfer.Shared/Parser/DebeziumDecimalParser.cs:48-68 | the nested search with early return yields what the first-match search `ScaleIn` yields, including the null dereference on an `after` field without `fields` |
| `DecimalParser.ScaleAmongNone` | src/Transfer.Shared/Parser/DebeziumDecimalParser.cs:55-63 | the inner search finds nothing iff no entry is an `Amount` field with an integer scale |
| `DecimalParser.ScaleAmongIsFirst` | src/Transfer.Shared/Parser/DebeziumDecimalParser.cs:55-63 | a found scale belongs to an `Amount` entry, and no earlier entry had an integer scale |
| `DecimalParser.ScaleInNone` | src/Transfer.Shared/Parser/DebeziumDecimalParser.cs:50-67 | the outer search returns null iff no top-level entry yields a scale or raises |
| `DecimalParser.ScaleInIsFirst` | src/Transfer.Shared/Parser/DebeziumDecimalParser.cs:50-67 | otherwise its outcome is that of the first entry that yields one, and all earlier entries yield nothing |
| `DecimalParser.ScaleOfConnectorFields` | src/Transfer.Shared/Parser/DebeziumDecimalParser.cs:50-67 | for the connector's schema shape, the scale found is `int.TryParse` of the declared scale text |
| `DecimalParser.DocumentedScales` | src/Transfer.Shared/Parser/DebeziumDecimalParser.cs:59-61 | the connector's schema with scale "2" or "1" gives scale 2 or 1 |
| `DecimalParser.ScaleOfDigit` | src/Transfer.Shared/Parser/DebeziumDecimalParser.cs:59-61 | a one-digit scale text gives that digit |
| `DecimalParser.NotAnInteger` | src/Transfer.Shared/Parser/DebeziumDecimalParser.cs:60 | text that starts and ends with a letter is not an integer, so such an entry is skipped |
| `DecimalParser.ParseAmount` | src/Transfer.Shared/Parser/DebeziumDecimalParser.cs:8-46 | the method's steps (checks, schema search, decode, in-place reverse, little-endian read, scaling, both catch clauses) give exactly `ParseAmountSpec`'s result |
| `DecimalParser.MissingAmount` | src/Transfer.Shared/Parser/DebeziumDecimalParser.cs:13-15 | a missing or empty amount fails with "Amount not found in after section" |
| `DecimalParser.MissingSchemaOrScale` | src/Transfer.Shared/Parser/DebeziumDecimalParser.cs:18-24 | missing schema fields fail with "Schema fields not found"; no scale fails with "Scale not found in schema" |
| `DecimalParser.InvalidBase64` | src/Transfer.Shared/Parser/DebeziumDecimalParser.cs:34-37 | text that is not base64 fails with "Invalid base64 format for Amount: " followed by the text |
| `DecimalParser.CatchFilter` | src/Transfer.Shared/Parser/DebeziumDecimalParser.cs:38-45 | the four named messages pass the filter unchanged; every other message is wrapped as "Error parsing amount: …" |
| `DecimalParser.AfterWithoutFieldsIsWrapped` | src/Transfer.Shared/Parser/DebeziumDecimalParser.cs:38-55 | an `after` field without `fields` ends in the wrapped null-reference message |
| `DecimalParser.ErrorsAreClassified` | src/Transfer.Shared/Parser/DebeziumDecimalParser.cs:34-45 | every failure is one of the four named errors or carries the wrapping prefix |
| `DecimalParser.ParseAmountValue` | src/Transfer.Shared/Parser/DebeziumDecimalParser.cs:26-32 | success holds iff the amount is present, fields exist, a scale is found and the text is base64; the value is then the big-endian reading of the bytes, of any length, over 10^scale |
| `DecimalParser.NegativeIffTopBit` | src/Transfer.Shared/Parser/DebeziumDecimalParser.cs:28-31 | a successful amount is negative iff the first decoded byte has its top bit set |
| `DecimalParser.ScaledSign` | src/Transfer.Shared/Parser/DebeziumDecimalParser.cs:31 | scaling keeps the sign, for any scale |
| `DecimalParser.ParseAmountOfEncoded` | src/Transfer.Shared/Parser/DebeziumDecimalParser.cs:27-31 | the base64 encoding of any value's n-byte two's-complement form parses back to that value over 10^scale |
| `DecimalParser.KnownPositiveAmount` | src/Transfer.Shared/Parser/DebeziumDecimalParser.cs:8-32 | "AfQ=" at scale "2" is 5.00 |
| `DecimalParser.KnownNegativeAmount` | src/Transfer.Shared/Parser/DebeziumDecimalParser.cs:8-32 | "/wA=" at scale "1" is -25.6 |
| `DecimalParser.KnownFailures` | src/Transfer.Shared/Parser/DebeziumDecimalParser.cs:22-37 | "AfQ" fails as invalid base64; scale text "two" fails as scale not found |
| `DecoderAgreement.DecodersAgreeIff` | src/Transfer.Shared/Models/DebeziumTransferDto.cs:36-46 | at schema scale 2, `ParseAmount` returns what `ToEntity` stores iff the full value fits in 16 bits (two or more bytes), or is 0 (fewer than two bytes) |
| `DecoderAgreement.ParsedAtScaleTwo` | src/Transfer.Shared/Parser/DebeziumDecimalParser.cs:27-31 | at scale 2, `ParseAmount` is the full reading over 100 |
| `DecoderAgreement.LastTwoCongruent` | src/Transfer.Shared/Models/DebeziumTransferDto.cs:39-41 | the full reading and the 16-bit reading of the last two bytes differ by a multiple of 65536 |
| `DecoderAgreement.LastTwoInWindow` | src/Transfer.Shared/Models/DebeziumTransferDto.cs:41 | the 16-bit reading lies in [-32768, 32768) |
| `DecoderAgreement.TwoByteAmountsAgree` | src/Transfer.Shared/Models/DebeziumTransferDto.cs:36-46 | every two-byte amount at scale 2 is decoded identically by both |
| `DecoderAgreement.FailuresBecomeZero` | src/Transfer.Shared/Models/DebeziumTransferDto.cs:28-55 | where `ParseAmount` fails for a missing or non-base64 amount, `ToEntity` stores 0 |
| `DecoderAgreement.ThreeBytesParsed` | src/Transfer.Shared/Parser/DebeziumDecimalParser.cs:27-31 | 01 00 00 at scale 2 is 655.36 to `ParseAmount` |
| `DecoderAgreement.ThreeBytesStored` | src/Transfer.Shared/Models/DebeziumTransferDto.cs:36-46 | 01 00 00 is 0 to `ToEntity` |
| `DecoderAgreement.OneByteDivergence` | src/Transfer.Shared/Models/DebeziumTransferDto.cs:36-55 | "Mg==" at scale 2: 0.50 by `ParseAmount`, 0 by `ToEntity`, whose 16-bit read fails on one byte |
| `DecoderAgreement.ThreeByteDivergence` | src/Transfer.Shared/Models/DebeziumTransferDto.cs:36-46 | "AQAA" at scale 2: 655.36 by `ParseAmount`, 0 by `ToEntity` |
| `RedisCache.TransferStore.SetTransfer` | src/Transfer.Shared/Infrastructure/RedisService.cs:19-25 | the value is written under `transfer:{Id}` and that key is added to the `transfers` set; nothing else changes |
| `RedisCache.TransferStore.GetTransfer` | src/Transfer.Shared/Infrastructure/RedisService.cs:27-32 | the value under the id's key, or null when there is none |
| `RedisCache.TransferStore.GetAllTransfers` | src/Transfer.Shared/Infrastructure/RedisService.cs:34-53 | the list holds exactly the values of indexed keys that hold a value, one entry per such key; indexed keys without a value are skipped; with each value under its own id's key, there are no duplicates |
| `RedisCache.TransferStore.DeleteTransfer` | src/Transfer.Shared/Infrastructure/RedisService.cs:59-68 | the key's value and its index entry are removed; nothing else changes |
| `RedisCache.TransferStore.DeleteKey` | src/Transfer.Shared/Infrastructure/RedisService.cs:74-77 | only the named key is deleted (the index itself when the key is `transfers`) |
| `RedisCache.ListingComplete` | src/Transfer.Shared/Infrastructure/RedisService.cs:34-53 | a listing that covers and counts every indexed key with a value contains exactly the live values, one per live key |
| `RedisCache.Key` | src/Transfer.Shared/Infrastructure/RedisService.cs:21 | the key is `transfer:`, then '-' exactly for a negative id, then the id's digits; `KeyInjective` and `KeyIsNotIndexKey` are its partners |
| `RedisCache.KeyInjective` | src/Transfer.Shared/Infrastructure/RedisService.cs:21 | distinct ids have distinct keys |
| `RedisCache.KeyIsNotIndexKey` | src/Transfer.Shared/Infrastructure/RedisService.cs:21-24 | no transfer key collides with the index key `transfers` |
| `RedisCache.SetThenGet` | src/Transfer.Shared/Infrastructure/RedisService.cs:19-32 | after setting t, getting t's id returns t, its key is indexed, and t is listed |
| `RedisCache.SetIdempotent` | src/Transfer.Shared/Infrastructure/RedisService.cs:23-24 | setting the same entity twice leaves the state of setting it once |
| `RedisCache.DeleteThenAbsent` | src/Transfer.Shared/Infrastructure/RedisService.cs:59-68 | after deleting an id, getting it returns null and its key is not indexed |
| `RedisCache.DeleteAbsentIsNoOp` | src/Transfer.Shared/Infrastructure/RedisService.cs:59-68 | deleting an id that has neither value nor index entry changes nothing |
| `RedisCache.OtherIdsUnchanged` | src/Transfer.Shared/Infrastructure/RedisService.cs:19-68 | set and delete for one id leave every other id's value and index membership as they were |
| `RedisCache.DeleteKeyLeavesIndex` | src/Transfer.Shared/Infrastructure/RedisService.cs:74-77 | deleting a transfer's key keeps the index as it was, but the id is no longer found or listed |
| `RedisCache.OperationsPreserveValid` | src/Transfer.Shared/Infrastructure/RedisService.cs:19-77 | set, delete and key deletion keep every value under its own id's key |
| `RedisCache.LiveValuesAreKeyedById` | src/Transfer.Shared/Infrastructure/RedisService.cs:34-53 | in such a store, an entity is listed iff its id's key is live and holds exactly it |
| `SyncService.Process` | src/Transfer.Sync/Service/TransferSyncService.cs:94-143 | the store afterwards is the dispatcher's result on the event |
| `SyncService.UpsertThenGet` | src/Transfer.Sync/Service/TransferSyncService.cs:101-112 | "c", "r" or "u" with `after` present stores `after.ToEntity()` under `after.Id` and indexes it |
| `SyncService.UpdateIsCreate` | src/Transfer.Sync/Service/TransferSyncService.cs:101-124 | "u" and "r" act exactly as "c" for every event and cache |
| `SyncService.DeleteThenAbsent` | src/Transfer.Sync/Service/TransferSyncService.cs:126-132 | "d" with `before` present leaves `before.Id` neither stored nor indexed |
| `SyncService.NoActionLeavesCache` | src/Transfer.Sync/Service/TransferSyncService.cs:99-136 | a missing image, a null tag or any other tag leaves the cache unchanged; otherwise the event is exactly one set or one delete |
| `SyncService.DispatchIdempotent` | src/Transfer.Sync/Service/TransferSyncService.cs:99-136 | applying the same event twice (same clock) leaves the cache as applying it once |
| `SyncService.OtherIdsUntouched` | src/Transfer.Sync/Service/TransferSyncService.cs:99-136 | an event changes nothing about any id other than the one it targets |
| `SyncService.DispatchPreservesValid` | src/Transfer.Sync/Service/TransferSyncService.cs:99-136 | every event keeps each cached value under the key of its own id |
| `SyncService.ConventionalEventsApply` | src/Transfer.Sync/Service/TransferSyncService.cs:101-132 | events that follow the connector's conventions (`after` for create and update, `before` for delete) always take effect |
| `SyncService.ListedIgnoresCase` | src/Transfer.Sync/Service/TransferSyncService.cs:154 | the topic match ignores case: a topic and a case variant of it are listed in the same replies |
| `SyncService.EnsureTopicExists` | src/Transfer.Sync/Service/TransferSyncService.cs:145-187 | between 1 and 61 metadata calls, all but the last without the topic; it succeeds iff the last reply lists the topic; it fails as missing iff all 61 replies lack it, and then exactly 61 calls were made; a broker error is rethrown at once |
| `SyncService.Consumer.Subscribe` | src/Transfer.Sync/Service/TransferSyncService.cs:42 | the consumer is subscribed to the topic; nothing else changes |
| `SyncService.Consumer.Consume` | src/Transfer.Sync/Service/TransferSyncService.cs:51 | the next poll result of the feed is delivered, and only the position advances |
| `SyncService.Consumer.Close` | src/Transfer.Sync/Service/TransferSyncService.cs:89 | the consumer is closed once more; nothing else changes |
| `SyncService.Execute` | src/Transfer.Sync/Service/TransferSyncService.cs:35-92 | a failed topic check leaves the consumer and the cache untouched (it throws before the try); otherwise the consumer is subscribed and polled to cancellation, the cache is the fold of the dispatcher over the delivered events, and the consumer is closed exactly once |
| `SyncService.OnlyPayloadsAreDispatched` | src/Transfer.Sync/Service/TransferSyncService.cs:51-64 | a poll with no message, a consume error, a null value, malformed JSON, a null message or a null payload changes nothing; only a payload can change the cache |
| `SyncService.QuietFeedLeavesCache` | src/Transfer.Sync/Service/TransferSyncService.cs:47-81 | a feed of timeouts, consume errors, null values and malformed values leaves the cache as it was |
| `SyncService.RunPreservesValid` | src/Transfer.Sync/Service/TransferSyncService.cs:47-81 | the poll loop keeps each cached value under the key of its own id |

## Left out

- JSON: `System.Text.Json` parsing and serialisation are outside the
  model.
  - The envelope arrives already deserialised. `JsonException` is the
    `Malformed` poll outcome.
  - The cache holds entities, not their JSON. Serialisation is taken to
    round-trip, so the null check after deserialising (RedisService.cs:45)
    never fires.
- `ParseAmount`'s `JsonNode` input is modelled by the typed envelope. The
  model does not cover JSON nodes of an unexpected kind:
  - a `fields` value that is not an array;
  - an array entry that is not an object;
  - a non-string `Amount` rendered by `ToString`.
  A missing `fields` under `after` is modelled: it is the null-dereference
  error.
- Decimal arithmetic and `Math.Pow`: amounts are exact rationals
  (`real`) and 10^scale is an exact integer power. The model does not
  cover .NET `decimal` range and precision or the `double` result of
  `Math.Pow`.
- `BitConverter.ToInt16` is modelled as on a little-endian host, the only
  kind the source is written for.
- `DebeziumPayload` has no `Transaction` member. The source types it as an
  untyped object (DebeziumMessage.cs:88-89), and neither decoder nor the
  sync service reads it.
- `DebeziumSource` has no `Xmin` member, for the same reason: it is an
  untyped object (DebeziumMessage.cs:127-128) that nothing in the core reads.
- `DateTime.TryParse` and `DateTime.UtcNow` are the parameters
  `parseTime` and `now`. The parsing rules of .NET dates are not modelled.
- Case folding is ASCII-only. `int.TryParse` accepts leading and trailing
  whitespace and a leading sign, but no culture-specific forms.
- The cache is keyed by the string `transfer:{id}`, not by the integer id.
  This keeps `DeleteKeyAsync(string)` faithful: it can delete any key,
  including the `transfers` index itself. Key injectivity is proved
  instead (`RedisCache.KeyInjective`).
- Redis failures, unreachable servers and WRONGTYPE replies are not
  modelled. So are exceptions from the store and the half-done writes
  they would leave behind.
  - The `catch (Exception)` of the dispatcher (TransferSyncService.cs:139-142)
    and of the poll loop (TransferSyncService.cs:76-80) therefore never
    fire in the model.
- Kafka: the consumer delivers a fixed feed and the admin client is a
  metadata oracle. The following are not modelled: connection settings,
  configuration defaults, at-least-once redelivery, and offsets.
- Timing and logging: `Task.Delay` backoffs, log calls, console output
  and async scheduling are not modelled.
- Cancellation is the end of the feed. A cancellation observed during a
  backoff delay looks in the model like the feed ending after that poll.
- `RedisCache.TransferStore.GetAllTransfers`: the order of the list is not
  stated, because the source takes it from an unordered Redis set.
- The Read API, the Write API and the Gateway are outside the sync path.
  The Read API's get and list match `RedisService` and are covered by it.
- Where the intended design and the code differ, the model follows the
  code:
  - A scale that is missing or not an integer is reported as "Scale not
    found in schema". There is no separate schema error.
  - Only the `after` section's `Amount` field is searched.
  - `ToEntity` reads a fixed 16-bit width, not an arbitrary-precision
    value.
