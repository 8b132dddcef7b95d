/**
 * `RedisService`: the read model kept in Redis. Each transfer is a string
 * value under `transfer:{Id}`, and the set `transfers` indexes those keys.
 * The keyspace is a map from key to (deserialised) entity plus the index
 * set; the JSON serialisation between them is taken to round-trip.
 */
module RedisCache {
  import opened Base
  import opened Models
  import opened DotNetText

  /** The two parts of the keyspace the service touches. */
  datatype Cache = Cache(values: map<string, TransferEntity>, index: set<string>)

  /** The key of the index set. */
  const IndexKey: string := "transfers"

  /** `$"transfer:{id}"`: the prefix, then a '-' for a negative id, then decimal digits. */
  function Key(id: int32): (r: string)
    ensures |r| > 9 && r[..9] == "transfer:"
    ensures (r[9] == '-' <==> id < 0) && AllDigits(if id < 0 then r[10..] else r[9..])
  {
    var p, d := "transfer:", Int32ToString(id);
    assert (p + d)[..9] == p && (p + d)[9..] == d;
    p + d
  }

  /** Every stored value sits under the key of its own id. */
  predicate Valid(c: Cache) {
    forall k :: k in c.values ==> k == Key(c.values[k].id)
  }

  /** The state after `SetTransferAsync(t)`: value written, key added to the index. */
  function Stored(c: Cache, t: TransferEntity): Cache {
    Cache(c.values[Key(t.id) := t], c.index + {Key(t.id)})
  }

  /** What `GetTransferAsync(id)` returns. */
  function Lookup(c: Cache, id: int32): Option<TransferEntity> {
    if Key(id) in c.values then Some(c.values[Key(id)]) else None
  }

  /** The state after `DeleteTransferAsync(id)`: value and index entry removed. */
  function Removed(c: Cache, id: int32): Cache {
    Cache(c.values - {Key(id)}, c.index - {Key(id)})
  }

  /** The state after `DeleteKeyAsync(key)`: whatever `key` names is gone, the index itself included. */
  function KeyRemoved(c: Cache, key: string): Cache {
    Cache(c.values - {key}, if key == IndexKey then {} else c.index)
  }

  /** Indexed keys that still hold a value. */
  function LiveKeys(c: Cache): set<string> {
    c.index * c.values.Keys
  }

  /** The values `GetAllTransfersAsync` reports: those under indexed keys that still hold a value. */
  function LiveValues(c: Cache): set<TransferEntity> {
    set k | k in c.index && k in c.values :: c.values[k]
  }

  predicate Distinct(s: seq<TransferEntity>) {
    forall i, j :: 0 <= i < j < |s| ==> s[i] != s[j]
  }

  /** The values under the keys of `done` that hold one. */
  function Collected(values: map<string, TransferEntity>, done: set<string>): set<TransferEntity> {
    set k | k in done && k in values :: values[k]
  }

  /** Visiting one more key adds its value, if any, to what has been collected. */
  lemma CollectedStep(values: map<string, TransferEntity>, done: set<string>, key: string)
    requires key !in done
    ensures Collected(values, done + {key}) ==
      Collected(values, done) + (if key in values then {values[key]} else {})
  {
  }

  /** Under `Valid`, the value under a key not yet visited is not among those collected so far. */
  lemma FreshValue(c: Cache, done: set<string>, key: string)
    requires Valid(c) && key in c.values && key !in done
    ensures c.values[key] !in Collected(c.values, done)
  {
    forall t | t in Collected(c.values, done)
      ensures t != c.values[key]
    {
      var k :| k in done && k in c.values && c.values[k] == t;
      assert k == Key(t.id) && key == Key(c.values[key].id) && k != key;
    }
  }

  lemma DistinctAppend(s: seq<TransferEntity>, x: TransferEntity)
    requires Distinct(s) && x !in s
    ensures Distinct(s + [x])
  {
  }

  /** A listing after visiting the keys of `done` holds exactly the values under them. */
  ghost predicate Covers(values: map<string, TransferEntity>, done: set<string>, r: seq<TransferEntity>) {
    forall t :: t in r <==> t in Collected(values, done)
  }

  /** ... and one entry per visited key that holds a value. */
  predicate Counts(values: map<string, TransferEntity>, done: set<string>, r: seq<TransferEntity>) {
    |r| == |done * values.Keys|
  }

  /** The listing after one more key: its value appended, if it holds one. */
  function Visit(values: map<string, TransferEntity>, r: seq<TransferEntity>, key: string): seq<TransferEntity> {
    if key in values then r + [values[key]] else r
  }

  lemma CoversStep(values: map<string, TransferEntity>, done: set<string>, r: seq<TransferEntity>, key: string)
    requires Covers(values, done, r) && key !in done
    ensures Covers(values, done + {key}, Visit(values, r, key))
  {
    CollectedStep(values, done, key);
  }

  lemma CountsStep(values: map<string, TransferEntity>, done: set<string>, r: seq<TransferEntity>, key: string)
    requires Counts(values, done, r) && key !in done
    ensures Counts(values, done + {key}, Visit(values, r, key))
  {
    var before, after := done * values.Keys, (done + {key}) * values.Keys;
    if key in values {
      assert after == before + {key} && key !in before;
    } else {
      assert after == before;
    }
  }

  lemma DistinctStep(values: map<string, TransferEntity>, done: set<string>, r: seq<TransferEntity>, key: string)
    requires Covers(values, done, r) && key !in done
    requires Valid(Cache(values, {})) && Distinct(r)
    ensures Distinct(Visit(values, r, key))
  {
    if key in values {
      FreshValue(Cache(values, {}), done, key);
      DistinctAppend(r, values[key]);
    }
  }

  /** Distinct ids have distinct keys. */
  lemma KeyInjective(a: int32, b: int32)
    requires Key(a) == Key(b)
    ensures a == b
  {
    var p := "transfer:";
    assert Key(a)[|p|..] == Int32ToString(a);
    assert Key(b)[|p|..] == Int32ToString(b);
    Int32ToStringInjective(a, b);
  }

  /** No transfer key is the key of the index. */
  lemma KeyIsNotIndexKey(id: int32)
    ensures Key(id) != IndexKey
  {
    assert Key(id)[8] == ':';
    assert IndexKey[8] == 's';
  }

  /** One step of the listing keeps all three of its invariants. */
  lemma VisitStep(values: map<string, TransferEntity>, done: set<string>, r: seq<TransferEntity>, key: string, valid: bool)
    requires key !in done && Covers(values, done, r) && Counts(values, done, r)
    requires valid ==> Valid(Cache(values, {})) && Distinct(r)
    ensures Covers(values, done + {key}, Visit(values, r, key))
    ensures Counts(values, done + {key}, Visit(values, r, key))
    ensures valid ==> Distinct(Visit(values, r, key))
  {
    CoversStep(values, done, r, key);
    CountsStep(values, done, r, key);
    if valid {
      DistinctStep(values, done, r, key);
    }
  }

  /** Moving a pending key to the visited ones keeps the two a partition of the same set. */
  lemma MoveKey<K>(done: set<K>, pending: set<K>, key: K)
    requires done !! pending && key in pending
    ensures (done + {key}) + (pending - {key}) == done + pending
    ensures (done + {key}) !! (pending - {key})
    ensures key !in done && |pending - {key}| < |pending|
  {
  }

  /** A listing that has visited every indexed key is what `GetAllTransfersAsync` promises. */
  lemma ListingComplete(c: Cache, r: seq<TransferEntity>)
    requires Covers(c.values, c.index, r) && Counts(c.values, c.index, r)
    ensures forall t :: t in r <==> t in LiveValues(c)
    ensures |r| == |LiveKeys(c)|
    ensures Valid(c) <==> Valid(Cache(c.values, {}))
  {
    assert Collected(c.values, c.index) == LiveValues(c);
  }

  /** The store as the service sees it through Redis. */
  class TransferStore {
    var values: map<string, TransferEntity>
    var index: set<string>

    function State(): Cache
      reads this
    {
      Cache(values, index)
    }

    constructor(initial: Cache)
      ensures State() == initial
    {
      values := initial.values;
      index := initial.index;
    }

    /** `SetTransferAsync`: `StringSetAsync` of the value, then `SetAddAsync` of its key. */
    method SetTransfer(transfer: TransferEntity)
      modifies this
      ensures State() == Stored(old(State()), transfer)
    {
      var key := Key(transfer.id);
      values := values[key := transfer];
      index := index + {key};
    }

    /** `GetTransferAsync`: the value under the id's key, or null. */
    method GetTransfer(id: int32) returns (r: Option<TransferEntity>)
      ensures r == Lookup(State(), id)
    {
      var key := Key(id);
      if key in values {
        r := Some(values[key]);
      } else {
        r := None;
      }
    }

    /**
     * `GetAllTransfersAsync`: one entry per indexed key that holds a value,
     * in the (unspecified) order the members of the set come back in.
     */
    method GetAllTransfers() returns (r: seq<TransferEntity>)
      ensures forall t :: t in r <==> t in LiveValues(State())
      ensures |r| == |LiveKeys(State())|
      ensures Valid(State()) ==> Distinct(r)
    {
      var stored, keys := values, index;
      r := [];
      ghost var done: set<string> := {};
      ghost var valid := Valid(Cache(stored, {}));
      while keys != {}
        invariant done + keys == index && done !! keys
        invariant Covers(stored, done, r)
        invariant Counts(stored, done, r)
        invariant valid ==> Distinct(r)
        decreases |keys|
      {
        var key :| key in keys;
        MoveKey(done, keys, key);
        VisitStep(stored, done, r, key, valid);
        r := Visit(stored, r, key);
        keys := keys - {key};
        done := done + {key};
      }
      ListingComplete(Cache(stored, index), r);
    }

    /** `DeleteTransferAsync`: `KeyDeleteAsync` of the key, then `SetRemoveAsync` of it from the index. */
    method DeleteTransfer(id: int32)
      modifies this
      ensures State() == Removed(old(State()), id)
    {
      var key := Key(id);
      values := values - {key};
      index := index - {key};
    }

    /** `DeleteKeyAsync`: `KeyDeleteAsync` of an arbitrary key. */
    method DeleteKey(key: string)
      modifies this
      ensures State() == KeyRemoved(old(State()), key)
    {
      values := values - {key};
      if key == IndexKey {
        index := {};
      }
    }
  }

  /** After `SetTransferAsync(t)`, `GetTransferAsync(t.Id)` returns `t`, and `t` is listed. */
  lemma SetThenGet(c: Cache, t: TransferEntity)
    ensures Lookup(Stored(c, t), t.id) == Some(t)
    ensures Key(t.id) in Stored(c, t).index
    ensures t in LiveValues(Stored(c, t))
  {
    var s := Stored(c, t);
    assert Key(t.id) in s.index && Key(t.id) in s.values && s.values[Key(t.id)] == t;
  }

  /** Setting the same entity twice leaves the state of setting it once. */
  lemma SetIdempotent(c: Cache, t: TransferEntity)
    ensures Stored(Stored(c, t), t) == Stored(c, t)
  {
    assert Stored(Stored(c, t), t).index == Stored(c, t).index;
  }

  /** After `DeleteTransferAsync(id)`, neither the value nor the index entry remains. */
  lemma DeleteThenAbsent(c: Cache, id: int32)
    ensures Lookup(Removed(c, id), id) == None
    ensures Key(id) !in Removed(c, id).index
  {
  }

  /** Deleting an id that is neither stored nor indexed changes nothing. */
  lemma DeleteAbsentIsNoOp(c: Cache, id: int32)
    requires Key(id) !in c.values && Key(id) !in c.index
    ensures Removed(c, id) == c
  {
    assert c.values - {Key(id)} == c.values;
    assert c.index - {Key(id)} == c.index;
  }

  /** Set and delete for one id leave every other id's value and index membership as they were. */
  lemma OtherIdsUnchanged(c: Cache, t: TransferEntity, id: int32, other: int32)
    requires other != t.id && other != id
    ensures Lookup(Stored(c, t), other) == Lookup(c, other)
    ensures Key(other) in Stored(c, t).index <==> Key(other) in c.index
    ensures Lookup(Removed(c, id), other) == Lookup(c, other)
    ensures Key(other) in Removed(c, id).index <==> Key(other) in c.index
  {
    if Key(other) == Key(t.id) {
      KeyInjective(other, t.id);
    }
    if Key(other) == Key(id) {
      KeyInjective(other, id);
    }
  }

  /**
   * `DeleteKeyAsync` on a transfer key drops the value but not the index
   * entry, and the next listing omits it.
   */
  lemma DeleteKeyLeavesIndex(c: Cache, id: int32)
    ensures KeyRemoved(c, Key(id)).index == c.index
    ensures Lookup(KeyRemoved(c, Key(id)), id) == None
    ensures Key(id) !in LiveKeys(KeyRemoved(c, Key(id)))
    ensures Key(id) in c.index ==> Key(id) in KeyRemoved(c, Key(id)).index
  {
    KeyIsNotIndexKey(id);
  }

  /** Every operation keeps each value under the key of its own id. */
  lemma OperationsPreserveValid(c: Cache, t: TransferEntity, id: int32, key: string)
    requires Valid(c)
    ensures Valid(Stored(c, t)) && Valid(Removed(c, id)) && Valid(KeyRemoved(c, key))
  {
  }

  /** Under `Valid`, the listing holds exactly one value per live key. */
  lemma LiveValuesAreKeyedById(c: Cache, t: TransferEntity)
    requires Valid(c)
    ensures t in LiveValues(c) <==> Key(t.id) in LiveKeys(c) && c.values[Key(t.id)] == t
  {
    if t in LiveValues(c) {
      var k :| k in c.index && k in c.values && c.values[k] == t;
      assert k == Key(t.id);
    }
  }
}
