/**
 * `TransferSyncService`: the background worker that waits for the change
 * topic, subscribes to it and applies every change event to the cache.
 * The broker is abstracted: metadata requests are answered by an oracle
 * indexed by call number, and the consumer hands out a fixed feed of poll
 * results, the ones delivered before cancellation is observed. JSON
 * deserialisation is abstracted to its outcome.
 */
module SyncService {
  import opened Base
  import opened Models
  import opened DotNetText
  import opened TransferDto
  import opened RedisCache

  // ---------------------------------------------------------------------
  // ProcessDebeziumMessageAsync
  // ---------------------------------------------------------------------

  /**
   * The cache after `ProcessDebeziumMessageAsync(p)`: create, read and update
   * store the converted `after` image, delete removes the `before` image's
   * id, and a missing image or any other tag leaves the cache alone.
   */
  function Dispatch(c: Cache, p: DebeziumPayload, now: Timestamp, parseTime: string -> Option<Timestamp>): Cache {
    match Classify(p.op)
    case Create | Read =>
      if p.after.Some? then Stored(c, EntityOf(p.after.value, now, parseTime)) else c
    case Update =>
      if p.after.Some? then Stored(c, EntityOf(p.after.value, now, parseTime)) else c
    case Delete =>
      if p.before.Some? then Removed(c, p.before.value.id) else c
    case Unknown(_) => c
  }

  /** The tags that upsert the `after` image. */
  predicate Upserts(op: Option<string>) {
    op == Some("c") || op == Some("r") || op == Some("u")
  }

  /**
   * `ProcessDebeziumMessageAsync`: switch on the tag, convert with
   * `ToEntity` and write through the store. Nothing escapes: the conversion
   * never throws, and store failures are not part of this model.
   */
  method Process(store: TransferStore, payload: DebeziumPayload, now: Timestamp, parseTime: string -> Option<Timestamp>)
    modifies store
    ensures store.State() == Dispatch(old(store.State()), payload, now, parseTime)
  {
    match Classify(payload.op)
    case Create | Read =>
      if payload.after.Some? {
        var transferEntity := ToEntity(payload.after.value, now, parseTime);
        store.SetTransfer(transferEntity);
      }
    case Update =>
      if payload.after.Some? {
        var transferEntity := ToEntity(payload.after.value, now, parseTime);
        store.SetTransfer(transferEntity);
      }
    case Delete =>
      if payload.before.Some? {
        store.DeleteTransfer(payload.before.value.id);
      }
    case Unknown(_) =>
  }

  /** After an upsert tag with an `after` image, the cache returns and lists its conversion under its id. */
  lemma UpsertThenGet(c: Cache, p: DebeziumPayload, now: Timestamp, parseTime: string -> Option<Timestamp>)
    requires Upserts(p.op) && p.after.Some?
    ensures var e := EntityOf(p.after.value, now, parseTime);
      && Lookup(Dispatch(c, p, now, parseTime), p.after.value.id) == Some(e)
      && e in LiveValues(Dispatch(c, p, now, parseTime))
  {
    SetThenGet(c, EntityOf(p.after.value, now, parseTime));
  }

  /** An update is applied exactly as a create (or a snapshot read) of the same payload. */
  lemma UpdateIsCreate(c: Cache, p: DebeziumPayload, now: Timestamp, parseTime: string -> Option<Timestamp>)
    ensures Dispatch(c, p.(op := Some("u")), now, parseTime) == Dispatch(c, p.(op := Some("c")), now, parseTime)
    ensures Dispatch(c, p.(op := Some("r")), now, parseTime) == Dispatch(c, p.(op := Some("c")), now, parseTime)
  {
  }

  /** After a delete with a `before` image, its id is neither stored nor indexed. */
  lemma DeleteThenAbsent(c: Cache, p: DebeziumPayload, now: Timestamp, parseTime: string -> Option<Timestamp>)
    requires p.op == Some("d") && p.before.Some?
    ensures Lookup(Dispatch(c, p, now, parseTime), p.before.value.id) == None
    ensures Key(p.before.value.id) !in Dispatch(c, p, now, parseTime).index
  {
    RedisCache.DeleteThenAbsent(c, p.before.value.id);
  }

  /**
   * The cache is left alone exactly when the payload asks for nothing: an
   * upsert tag without `after`, a delete without `before`, or any other tag
   * (a missing one included). Otherwise the cache is the one the named
   * store operation produces.
   */
  lemma NoActionLeavesCache(c: Cache, p: DebeziumPayload, now: Timestamp, parseTime: string -> Option<Timestamp>)
    ensures (|| (Upserts(p.op) && p.after.None?) || (p.op == Some("d") && p.before.None?)
             || (!Upserts(p.op) && p.op != Some("d")))
            ==> Dispatch(c, p, now, parseTime) == c
    ensures Upserts(p.op) && p.after.Some? ==>
              Dispatch(c, p, now, parseTime) == Stored(c, EntityOf(p.after.value, now, parseTime))
    ensures p.op == Some("d") && p.before.Some? ==> Dispatch(c, p, now, parseTime) == Removed(c, p.before.value.id)
  {
  }

  /** Applying the same event twice leaves the cache as applying it once (for a fixed clock). */
  lemma DispatchIdempotent(c: Cache, p: DebeziumPayload, now: Timestamp, parseTime: string -> Option<Timestamp>)
    ensures Dispatch(Dispatch(c, p, now, parseTime), p, now, parseTime) == Dispatch(c, p, now, parseTime)
  {
    match Classify(p.op)
    case Create | Read | Update =>
      if p.after.Some? {
        SetIdempotent(c, EntityOf(p.after.value, now, parseTime));
      }
    case Delete =>
      if p.before.Some? {
        var id := p.before.value.id;
        assert Removed(Removed(c, id), id).values == Removed(c, id).values;
        assert Removed(Removed(c, id), id).index == Removed(c, id).index;
      }
    case Unknown(_) =>
  }

  /** The id an event targets: `after.Id` for upserts, `before.Id` for deletes. */
  function Target(p: DebeziumPayload): Option<int32> {
    if Upserts(p.op) && p.after.Some? then Some(p.after.value.id)
    else if p.op == Some("d") && p.before.Some? then Some(p.before.value.id)
    else None
  }

  /** An event changes nothing about any id other than the one it targets. */
  lemma OtherIdsUntouched(c: Cache, p: DebeziumPayload, now: Timestamp, parseTime: string -> Option<Timestamp>, other: int32)
    requires Target(p) != Some(other)
    ensures Lookup(Dispatch(c, p, now, parseTime), other) == Lookup(c, other)
    ensures Key(other) in Dispatch(c, p, now, parseTime).index <==> Key(other) in c.index
  {
    if Upserts(p.op) && p.after.Some? {
      var e := EntityOf(p.after.value, now, parseTime);
      OtherIdsUnchanged(c, e, e.id, other);
    } else if p.op == Some("d") && p.before.Some? {
      var id := p.before.value.id;
      OtherIdsUnchanged(c, TransferEntity(id, 0, 0, 0.0, 0, None), id, other);
    }
  }

  /** Every event keeps each cached value under the key of its own id. */
  lemma DispatchPreservesValid(c: Cache, p: DebeziumPayload, now: Timestamp, parseTime: string -> Option<Timestamp>)
    requires Valid(c)
    ensures Valid(Dispatch(c, p, now, parseTime))
  {
    OperationsPreserveValid(c, if p.after.Some? then EntityOf(p.after.value, now, parseTime) else TransferEntity(0, 0, 0, 0.0, 0, None),
                            if p.before.Some? then p.before.value.id else 0, IndexKey);
  }

  /**
   * Events that follow the connector's conventions always take effect: a
   * create or update stores its `after` image, a delete removes its
   * `before` image's id.
   */
  lemma ConventionalEventsApply(c: Cache, p: DebeziumPayload, now: Timestamp, parseTime: string -> Option<Timestamp>)
    requires ConventionalPayload(p)
    ensures p.op == Some("c") || p.op == Some("u") ==>
              Lookup(Dispatch(c, p, now, parseTime), p.after.value.id) == Some(EntityOf(p.after.value, now, parseTime))
    ensures p.op == Some("d") ==> Lookup(Dispatch(c, p, now, parseTime), p.before.value.id) == None
  {
    if p.op == Some("c") || p.op == Some("u") {
      UpsertThenGet(c, p, now, parseTime);
    } else if p.op == Some("d") {
      DeleteThenAbsent(c, p, now, parseTime);
    }
  }

  // ---------------------------------------------------------------------
  // EnsureTopicExistsAsync
  // ---------------------------------------------------------------------

  /** The retries after the first metadata request. */
  const MaxRetries: nat := 60

  /** The answer to one `GetMetadata` call: the topic names, or an exception. */
  datatype MetadataReply = Topics(names: seq<string>) | BrokerError

  /** How the readiness check ends: it returns, or it throws (the missing topic, or a rethrown broker error). */
  datatype TopicCheck = TopicReady | TopicMissing | MetadataFailed

  /** `metadata.Topics.Any(t => t.Topic.Equals(topic, OrdinalIgnoreCase))`. */
  predicate Listed(names: seq<string>, topic: string) {
    exists i | 0 <= i < |names| :: EqualsIgnoreCase(names[i], topic)
  }

  /** A reply that lists the topic. */
  predicate Present(r: MetadataReply, topic: string) {
    r.Topics? && Listed(r.names, topic)
  }

  /** A reply that answers, but without the topic. */
  predicate Absent(r: MetadataReply, topic: string) {
    r.Topics? && !Listed(r.names, topic)
  }

  /** The topic match ignores letter case: a name differing only in case is listed whenever the topic is. */
  lemma ListedIgnoresCase(names: seq<string>, topic: string, other: string)
    requires EqualsIgnoreCase(topic, other)
    ensures Listed(names, topic) <==> Listed(names, other)
  {
    if Listed(names, topic) {
      var i :| 0 <= i < |names| && EqualsIgnoreCase(names[i], topic);
      EqualsIgnoreCaseIsEquivalence(names[i], topic, other);
    }
    if Listed(names, other) {
      var i :| 0 <= i < |names| && EqualsIgnoreCase(names[i], other);
      EqualsIgnoreCaseIsEquivalence(topic, other, other);
      EqualsIgnoreCaseIsEquivalence(names[i], other, topic);
    }
  }

  /**
   * `EnsureTopicExistsAsync`: one metadata request, then while the topic is
   * absent up to 60 more, one per retry. `metadata(i)` answers the i-th call
   * and `calls` is how many were made. It returns as soon as a reply lists
   * the topic, throws once 61 replies have not, and rethrows a broker error
   * at once.
   */
  method EnsureTopicExists(topic: string, metadata: nat -> MetadataReply) returns (outcome: TopicCheck, calls: nat)
    ensures 1 <= calls <= MaxRetries + 1
    ensures forall i :: 0 <= i < calls - 1 ==> Absent(metadata(i), topic)
    ensures outcome == TopicReady <==> Present(metadata(calls - 1), topic)
    ensures outcome == MetadataFailed <==> metadata(calls - 1).BrokerError?
    ensures outcome == TopicMissing <==> (forall i :: 0 <= i <= MaxRetries ==> Absent(metadata(i), topic))
    ensures outcome == TopicMissing ==> calls == MaxRetries + 1
  {
    var reply := metadata(0);
    calls := 1;
    if reply.BrokerError? {
      return MetadataFailed, calls;
    }
    var topicExists := Listed(reply.names, topic);
    if !topicExists {
      var retryCount := 0;
      while !topicExists && retryCount < MaxRetries
        invariant calls == retryCount + 1 <= MaxRetries + 1
        invariant reply == metadata(calls - 1) && reply.Topics?
        invariant topicExists == Listed(reply.names, topic)
        invariant forall i :: 0 <= i < calls - 1 ==> Absent(metadata(i), topic)
        decreases MaxRetries - retryCount
      {
        reply := metadata(calls);
        calls := calls + 1;
        if reply.BrokerError? {
          return MetadataFailed, calls;
        }
        topicExists := Listed(reply.names, topic);
        retryCount := retryCount + 1;
      }
      if !topicExists {
        return TopicMissing, calls;
      }
    }
    outcome := TopicReady;
  }

  // ---------------------------------------------------------------------
  // ExecuteAsync
  // ---------------------------------------------------------------------

  /** What `JsonSerializer.Deserialize<DebeziumMessage>` made of a message value. */
  datatype Deserialized = Malformed | Parsed(message: Option<DebeziumMessage>)

  /**
   * One `Consume` call: nothing within the timeout, a `ConsumeException`, or
   * a message whose value may be null, delivered at clock reading `clock`.
   */
  datatype PollResult = NoMessage | ConsumeFailed | Delivered(value: Option<Deserialized>, clock: Timestamp)

  /** The cache after one iteration of the poll loop: only a non-null payload of a parsed, non-null value is dispatched. */
  function Step(c: Cache, r: PollResult, parseTime: string -> Option<Timestamp>): Cache {
    if r.Delivered? && r.value.Some? && r.value.value.Parsed? && r.value.value.message.Some?
       && r.value.value.message.value.payload.Some?
    then Dispatch(c, r.value.value.message.value.payload.value, r.clock, parseTime)
    else c
  }

  /** The cache after the poll loop has handled `polls` in order. */
  function Run(c: Cache, polls: seq<PollResult>, parseTime: string -> Option<Timestamp>): Cache
    decreases |polls|
  {
    if polls == [] then c else Step(Run(c, polls[..|polls| - 1], parseTime), polls[|polls| - 1], parseTime)
  }

  /** The Kafka consumer: its subscription, how often it was closed, and the feed it delivers from. */
  class Consumer {
    var subscription: Option<string>
    var closeCount: nat
    var consumed: nat
    const feed: seq<PollResult>

    /** Consumed no further than the feed reaches. */
    predicate Valid()
      reads this
    {
      consumed <= |feed|
    }

    /** A freshly built consumer: not subscribed, not closed, nothing consumed. */
    constructor(feed: seq<PollResult>)
      ensures this.feed == feed
      ensures subscription == None && closeCount == 0 && consumed == 0
    {
      this.feed := feed;
      subscription := None;
      closeCount := 0;
      consumed := 0;
    }

    /** Whether cancellation has been observed: the feed before it is used up. */
    predicate Cancelled()
      reads this
    {
      consumed >= |feed|
    }

    method Subscribe(topic: string)
      modifies this
      ensures subscription == Some(topic)
      ensures closeCount == old(closeCount) && consumed == old(consumed)
    {
      subscription := Some(topic);
    }

    /** `Consume(TimeSpan.FromSeconds(1))`: the next result of the feed. */
    method Consume() returns (r: PollResult)
      requires consumed < |feed|
      modifies this
      ensures r == feed[old(consumed)] && consumed == old(consumed) + 1
      ensures subscription == old(subscription) && closeCount == old(closeCount)
    {
      r := feed[consumed];
      consumed := consumed + 1;
    }

    method Close()
      modifies this
      ensures closeCount == old(closeCount) + 1
      ensures subscription == old(subscription) && consumed == old(consumed)
    {
      closeCount := closeCount + 1;
    }
  }

  /** The tail of the feed that `Run` must reach: `Run` over `ps[..k + 1]` is one `Step` after `Run` over `ps[..k]`. */
  lemma RunExtends(c: Cache, ps: seq<PollResult>, k: nat, parseTime: string -> Option<Timestamp>)
    requires k < |ps|
    ensures Run(c, ps[..k + 1], parseTime) == Step(Run(c, ps[..k], parseTime), ps[k], parseTime)
  {
    assert ps[..k + 1][..k] == ps[..k];
  }

  /**
   * `ExecuteAsync`: check the topic; on success subscribe, poll until
   * cancellation applying each event, and close the consumer in the
   * `finally` block. A failed topic check throws before the subscription
   * and before the `try`, so the consumer is neither subscribed nor closed.
   */
  method Execute(store: TransferStore, consumer: Consumer, topic: string, metadata: nat -> MetadataReply,
                 parseTime: string -> Option<Timestamp>)
    returns (outcome: TopicCheck)
    requires consumer.Valid()
    modifies store, consumer
    ensures outcome != TopicReady ==>
              && consumer.subscription == old(consumer.subscription)
              && consumer.closeCount == old(consumer.closeCount)
              && consumer.consumed == old(consumer.consumed)
              && store.State() == old(store.State())
    ensures outcome == TopicReady ==>
              && consumer.subscription == Some(topic)
              && consumer.closeCount == old(consumer.closeCount) + 1
              && consumer.Cancelled()
              && store.State() == Run(old(store.State()), consumer.feed[old(consumer.consumed)..], parseTime)
  {
    var calls;
    outcome, calls := EnsureTopicExists(topic, metadata);
    if outcome != TopicReady {
      return;
    }
    consumer.Subscribe(topic);
    ghost var start := consumer.consumed;
    ghost var initial := store.State();
    while !consumer.Cancelled()
      invariant start <= consumer.consumed <= |consumer.feed|
      invariant consumer.subscription == Some(topic) && consumer.closeCount == old(consumer.closeCount)
      invariant store.State() == Run(initial, consumer.feed[start..consumer.consumed], parseTime)
      decreases |consumer.feed| - consumer.consumed
    {
      ghost var k := consumer.consumed - start;
      var consumeResult := consumer.Consume();
      RunExtends(initial, consumer.feed[start..], k, parseTime);
      assert consumer.feed[start..][..k] == consumer.feed[start..consumer.consumed - 1];
      assert consumer.feed[start..][..k + 1] == consumer.feed[start..consumer.consumed];
      if consumeResult.Delivered? && consumeResult.value.Some? {
        var deserialized := consumeResult.value.value;
        if deserialized.Parsed? && deserialized.message.Some? && deserialized.message.value.payload.Some? {
          Process(store, deserialized.message.value.payload.value, consumeResult.clock, parseTime);
        }
      }
    }
    consumer.Close();
    assert consumer.feed[start..consumer.consumed] == consumer.feed[start..];
  }

  /** Only a delivered, parsed, non-null message with a non-null payload can change the cache. */
  lemma OnlyPayloadsAreDispatched(c: Cache, r: PollResult, parseTime: string -> Option<Timestamp>)
    ensures (|| !r.Delivered? || r.value.None? || r.value.value.Malformed? || r.value.value.message.None?
             || r.value.value.message.value.payload.None?)
            ==> Step(c, r, parseTime) == c
    ensures Step(c, r, parseTime) != c ==>
              r.Delivered? && r.value.Some? && r.value.value.Parsed? && r.value.value.message.Some?
              && r.value.value.message.value.payload.Some?
  {
  }

  /** A feed with nothing to dispatch (timeouts, consume failures, null or malformed values) leaves the cache as it was. */
  lemma {:induction false} QuietFeedLeavesCache(c: Cache, polls: seq<PollResult>, parseTime: string -> Option<Timestamp>)
    requires forall i :: 0 <= i < |polls| ==> !polls[i].Delivered? || polls[i].value.None? || polls[i].value.value.Malformed?
    ensures Run(c, polls, parseTime) == c
    decreases |polls|
  {
    if polls != [] {
      var init := polls[..|polls| - 1];
      assert forall i :: 0 <= i < |init| ==> init[i] == polls[i];
      QuietFeedLeavesCache(c, init, parseTime);
    }
  }

  /** The poll loop keeps each cached value under the key of its own id. */
  lemma {:induction false} RunPreservesValid(c: Cache, polls: seq<PollResult>, parseTime: string -> Option<Timestamp>)
    requires Valid(c)
    ensures Valid(Run(c, polls, parseTime))
    decreases |polls|
  {
    if polls != [] {
      var r := polls[|polls| - 1];
      var before := Run(c, polls[..|polls| - 1], parseTime);
      RunPreservesValid(c, polls[..|polls| - 1], parseTime);
      if r.Delivered? && r.value.Some? && r.value.value.Parsed? && r.value.value.message.Some?
         && r.value.value.message.value.payload.Some? {
        DispatchPreservesValid(before, r.value.value.message.value.payload.value, r.clock, parseTime);
      }
    }
  }
}
