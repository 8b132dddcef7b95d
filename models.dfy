/**
 * The records of the synchronisation path, as already-deserialised values:
 * the cached transfer, the row image the connector sends, and the change
 * envelope around it (schema, payload, source metadata, operation tag).
 * Every C# nullable member is an `Option`.
 */
module Models {
  import opened Base

  /** A transfer as the cache stores it. */
  datatype TransferEntity = TransferEntity(
    id: int32,
    fromAccount: int32,
    toAccount: int32,
    amount: real,
    createdAt: Timestamp,
    description: Option<string>)

  /**
   * One row image (`before` or `after`) as the connector sends it: the
   * amount is still base64 text and the creation time still text.
   */
  datatype DebeziumTransferDto = DebeziumTransferDto(
    id: int32,
    fromAccount: int32,
    toAccount: int32,
    amountRaw: Option<string>,
    createdAt: Option<string>,
    description: Option<string>)

  /**
   * One entry of a schema's `fields` array: its `field` name, its own nested
   * `fields` array, and the text of its `parameters.scale`. A `None` entry of
   * an array is a JSON `null` there.
   */
  datatype FieldDescriptor = FieldDescriptor(
    field: Option<string>,
    fields: Option<seq<Option<FieldDescriptor>>>,
    scale: Option<string>)

  datatype DebeziumSchema = DebeziumSchema(
    schemaType: Option<string>,
    fields: Option<seq<Option<FieldDescriptor>>>,
    optional: bool,
    name: Option<string>,
    version: int32)

  datatype DebeziumSource = DebeziumSource(
    version: Option<string>,
    connector: Option<string>,
    name: Option<string>,
    tsMs: int64,
    snapshot: Option<string>,
    db: Option<string>,
    schema: Option<string>,
    table: Option<string>,
    txId: Option<int64>,
    lsn: Option<int64>)

  /** `before` and `after` are both row images of the same shape. */
  datatype DebeziumPayload = DebeziumPayload(
    before: Option<DebeziumTransferDto>,
    after: Option<DebeziumTransferDto>,
    source: Option<DebeziumSource>,
    op: Option<string>,
    tsMs: int64,
    tsUs: int64,
    tsNs: int64)

  /** A whole change event; both halves may be absent. */
  datatype DebeziumMessage = DebeziumMessage(
    schema: Option<DebeziumSchema>,
    payload: Option<DebeziumPayload>)

  /** What the `op` tag says happened to the row. */
  datatype Operation = Create | Update | Delete | Read | Unknown(tag: Option<string>)

  /** The tags "c", "u", "d" and "r"; every other tag, and a missing one, is unknown. */
  function Classify(op: Option<string>): (o: Operation)
    ensures o == Create <==> op == Some("c")
    ensures o == Update <==> op == Some("u")
    ensures o == Delete <==> op == Some("d")
    ensures o == Read <==> op == Some("r")
  {
    match op
    case Some("c") => Create
    case Some("u") => Update
    case Some("d") => Delete
    case Some("r") => Read
    case _ => Unknown(op)
  }

  /** The tag the connector writes for an operation. */
  function Tag(o: Operation): Option<string> {
    match o
    case Create => Some("c")
    case Update => Some("u")
    case Delete => Some("d")
    case Read => Some("r")
    case Unknown(t) => t
  }

  /** Classification loses nothing: the tag can always be recovered. */
  lemma TagOfClassify(op: Option<string>)
    ensures Tag(Classify(op)) == op
  {
  }

  /** Every operation other than an `Unknown` carrying a known tag is the classification of its tag. */
  lemma ClassifyOfTag(o: Operation)
    requires o.Unknown? ==> o.tag !in {Some("c"), Some("u"), Some("d"), Some("r")}
    ensures Classify(Tag(o)) == o
  {
  }

  /**
   * The connector's conventions for the row images: a create carries only
   * `after`, an update carries `after`, a delete carries only `before`.
   */
  predicate ConventionalPayload(p: DebeziumPayload) {
    match Classify(p.op)
    case Create => p.before.None? && p.after.Some?
    case Update => p.after.Some?
    case Delete => p.before.Some? && p.after.None?
    case _ => true
  }
}
