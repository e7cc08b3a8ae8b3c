/**
 * The cache storage over Redis: one key per entry holding the JSON metadata and the payload
 * joined by a NUL, dependency verification on read (sliding expiry, absolute expiry,
 * validity callbacks, dependent items), tags and priorities kept by the set-based journal.
 */
module Storage {
  import opened Wrappers
  import opened Strings
  import opened Seqs
  import Store
  import Server
  import LockSpec
  import Client
  import Journal

  /** A cached PHP value: a string, or any other value, which is stored serialized. */
  datatype Data = Null | Text(s: string) | Other(id: nat)

  /**
   * The metadata of an entry: the write stamp (`microtime()`), whether the payload is
   * serialized, the absolute expiry, the sliding expiry, the dependent items with the stamp
   * each had at write time, in order, and the validity callbacks.
   */
  datatype Meta = Meta(time: Option<string>, serialized: bool, expire: Option<int>, delta: Option<int>,
                       items: seq<(string, Option<string>)>, callbacks: seq<string>)

  /** `processStoredValue`'s result: the metadata with its key, and the payload, if any. */
  datatype Stored = Stored(key: string, meta: Meta, data: Option<string>)

  /** The dependencies a write is given (`Cache::EXPIRATION`, `SLIDING`, `ITEMS`, `CALLBACKS`, `TAGS`, `PRIORITY`). */
  datatype Dp = Dp(expiration: Option<int>, sliding: bool, items: Option<seq<string>>, callbacks: Option<seq<string>>,
                   tags: Journal.TagsValue, priority: Option<int>)

  /** The foreign functions the storage relies on: JSON, `serialize` and `Cache::checkCallbacks`. */
  datatype Codec = Codec(encode: Meta -> string, decode: string -> Meta,
                         serialize: Data -> string, unserialize: string -> Data,
                         checkCallbacks: seq<string> -> bool)

  /**
   * JSON output has no raw NUL, is never a falsy string (it is an object) and decodes back;
   * serialized values unserialize back.
   */
  ghost predicate Sound(c: Codec) {
    && (forall m :: NUL !in c.encode(m))
    && (forall m :: !Empty(c.encode(m)))
    && (forall m :: c.decode(c.encode(m)) == m)
    && (forall d :: c.unserialize(c.serialize(d)) == d)
  }

  const Namespace := "Nette.Storage"

  /** formatEntryKey */
  function FormatEntryKey(key: string): (r: string)
    ensures r == Journal.StoragePrefix + ReplaceChar(key, NUL, ":")
    ensures NUL !in r
    ensures NUL !in key ==> r == Journal.StoragePrefix + key
  {
    assert NUL !in Journal.StoragePrefix;
    Namespace + ":" + ReplaceChar(key, NUL, ":")
  }

  /** An entry key is never a journal key. */
  lemma EntryKeyOutsideJournal(key: string)
    ensures Journal.Outside(FormatEntryKey(key))
  {
    var r := FormatEntryKey(key);
    assert r[6] == 'S' && Journal.Prefix[6] == 'J';
  }

  /** Deleting storage keys leaves the journal's keys as they were. */
  lemma NoJournalKeysLost(a: Store.Db, b: Store.Db)
    requires forall x :: !(Journal.StoragePrefix <= x) ==> Store.At(b, x) == Store.At(a, x)
    ensures Store.KeysWithPrefix(b, Journal.Prefix) == Store.KeysWithPrefix(a, Journal.Prefix)
  {
    forall x
      ensures x in Store.KeysWithPrefix(b, Journal.Prefix) <==> x in Store.KeysWithPrefix(a, Journal.Prefix)
    {
      if Journal.Prefix <= x {
        assert x[6] == 'J' && Journal.StoragePrefix[6] == 'S';
        assert Store.At(b, x) == Store.At(a, x);
      }
    }
  }

  /** The keys write may change on the storage's server: the entry and its lease's two keys. */
  function WriteKeys(key: string): (r: set<string>)
    ensures FormatEntryKey(key) in r
    ensures forall x :: x in r ==> Journal.Outside(x)
  {
    var ek := FormatEntryKey(key);
    assert ek[6] == 'S' && Journal.Prefix[6] == 'J';
    assert LockSpec.LockKey(ek)[6] == 'S' && LockSpec.TimeoutKey(ek)[6] == 'S';
    {ek, LockSpec.TimeoutKey(ek), LockSpec.LockKey(ek)}
  }

  /** The expiry part of the metadata: absolute without SLIDING, sliding with it, never both. */
  function Expiration(dp: Dp, now: int): (r: (Option<int>, Option<int>))
    ensures r.0.Some? ==> r.1.None?
    ensures dp.expiration.None? ==> r == (None, None)
    ensures dp.expiration.Some? && !dp.sliding ==> r.0 == Some(dp.expiration.value + now)
    ensures dp.expiration.Some? && dp.sliding ==> r == (None, Some(dp.expiration.value))
  {
    if dp.expiration.None? then (None, None)
    else if !dp.sliding then (Some(dp.expiration.value + now), None)
    else (None, Some(dp.expiration.value))
  }

  /** What is stored for a payload: strings verbatim, anything else serialized and flagged. */
  function Payload(c: Codec, data: Data): (r: (bool, string))
    ensures r.0 <==> !data.Text?
    ensures data.Text? ==> r.1 == data.s
  {
    if data.Text? then (false, data.s) else (true, c.serialize(data))
  }

  /** The stored text: the JSON metadata, a NUL, the payload. */
  function Envelope(c: Codec, meta: Meta, payload: string): string {
    c.encode(meta) + [NUL] + payload
  }

  /** processStoredValue: split at the first NUL; without one there is no payload. */
  function ProcessStoredValue(c: Codec, key: string, stored: string): (r: Stored)
    ensures r.key == key
    ensures NUL !in stored ==> r.meta == c.decode(stored) && r.data.None?
    ensures NUL in stored ==> r.data.Some? && |r.data.value| < |stored| && stored[|stored| - |r.data.value|..] == r.data.value
  {
    var parts := SplitFirst(stored, NUL);
    Stored(key, c.decode(parts.0), parts.1)
  }

  /** getUnserializedValue */
  function Unserialized(c: Codec, s: Stored): (r: Data)
    ensures !s.meta.serialized && s.data.Some? ==> r == Text(s.data.value)
    ensures !s.meta.serialized && s.data.None? ==> r == Null
    ensures s.meta.serialized ==> r == c.unserialize(s.data.GetOr(""))
  {
    if !s.meta.serialized then (if s.data.Some? then Text(s.data.value) else Null)
    else c.unserialize(s.data.GetOr(""))
  }

  /** A payload read with the flag it was written with decodes to the written value. */
  lemma PayloadRoundTrip(c: Codec, key: string, meta: Meta, data: Data)
    requires Sound(c) && meta.serialized == Payload(c, data).0
    ensures Unserialized(c, Stored(key, meta, Some(Payload(c, data).1))) == data
  {
  }

  /**
   * Whatever is written comes back: splitting the envelope recovers the metadata and the
   * payload, even a payload holding NULs, and the payload decodes to the written value.
   */
  lemma EnvelopeRoundTrip(c: Codec, key: string, meta: Meta, data: Data)
    requires Sound(c)
    ensures var p := Payload(c, data);
      var s := ProcessStoredValue(c, key, Envelope(c, meta.(serialized := p.0), p.1));
      s == Stored(key, meta.(serialized := p.0), Some(p.1)) && Unserialized(c, s) == data
  {
    var p := Payload(c, data);
    var m := meta.(serialized := p.0);
    SplitFirstOfJoin(c.encode(m), NUL, p.1);
    PayloadRoundTrip(c, key, m, data);
  }

  /** doRead over a state: a missing or falsy value reads as nothing. */
  function StoredAt(c: Codec, db: Store.Db, key: string): (r: Option<Stored>)
    ensures r.Some? <==> Store.GetStr(db, FormatEntryKey(key)).Some? && !Empty(Store.GetStr(db, FormatEntryKey(key)).value)
  {
    var v := Store.GetStr(db, FormatEntryKey(key));
    if v.None? || Empty(v.value) then None else Some(ProcessStoredValue(c, key, v.value))
  }

  /**
   * An entry stored with a TTL reads as missing once the server has dropped the keys expired
   * at its deadline; before the deadline, eviction leaves it as it was.
   */
  lemma EntryExpires(c: Codec, db: Store.Db, key: string, t: int, now: int)
    requires Store.Ttl(db, FormatEntryKey(key)) == Some(t)
    ensures t <= now ==> StoredAt(c, Store.Evict(db, now), key) == None
    ensures now < t ==> StoredAt(c, Store.Evict(db, now), key) == StoredAt(c, db, key)
  {
  }

  /** readMeta */
  function MetaAt(c: Codec, db: Store.Db, key: string): (r: Option<Meta>)
    ensures r.Some? <==> StoredAt(c, db, key).Some?
  {
    var s := StoredAt(c, db, key);
    if s.Some? then Some(s.value.meta) else None
  }

  /** `$m[META_TIME]`, null when there is no metadata. */
  function TimeOf(m: Option<Meta>): Option<string> {
    if m.Some? then m.value.time else None
  }

  /** The first check of verify fails: no sliding expiry and an absolute one in the past. */
  predicate Expired(meta: Meta, now: int) {
    !(meta.delta.Some? && meta.delta.value != 0) && meta.expire.Some? && meta.expire.value != 0 && meta.expire.value < now
  }

  predicate CallbacksHold(c: Codec, meta: Meta) {
    meta.callbacks == [] || c.checkCallbacks(meta.callbacks)
  }

  /** The dependent item check: the item's current stamp must be the recorded one. */
  predicate ItemStale(recorded: Option<string>, current: Option<Meta>) {
    TimeOf(current) != recorded
  }

  /** An item missing at write time and still missing is not stale; an overwritten one is. */
  lemma ItemStaleCases(recorded: Option<string>, current: Option<Meta>)
    ensures recorded.None? && current.None? ==> !ItemStale(recorded, current)
    ensures current.Some? && current.value.time != recorded ==> ItemStale(recorded, current)
  {
  }

  /** A dependent item that had no entry when it was recorded, and still has none, passes. */
  lemma MissingItemPasses(c: Codec, written: Store.Db, db: Store.Db, name: string, now: int, fuel: nat)
    requires MetaAt(c, written, name).None? && MetaAt(c, db, name).None?
    ensures ItemPasses(c, db, (name, TimeOf(MetaAt(c, written, name))), now, fuel)
  {
  }

  /**
   * What write stores reads back: an entry holding the envelope of `meta` and the payload of
   * `data` is found, splits back into them and decodes to `data`, and it passes verify as
   * long as it has not expired, its callbacks hold and its dependent items pass.
   */
  lemma WriteThenRead(c: Codec, db: Store.Db, key: string, meta: Meta, data: Data, now: int, fuel: nat)
    requires Sound(c) && meta.serialized == Payload(c, data).0
    requires Store.GetStr(db, FormatEntryKey(key)) == Some(Envelope(c, meta, Payload(c, data).1))
    requires !Expired(meta, now) && CallbacksHold(c, meta) && (meta.delta.Some? ==> meta.delta.value >= 0)
    requires forall i :: 0 <= i < |meta.items| ==> ItemPasses(c, db, meta.items[i], now, fuel)
    ensures StoredAt(c, db, key) == Some(Stored(key, meta, Some(Payload(c, data).1)))
    ensures Passes(c, db, meta, now, fuel)
    ensures Unserialized(c, StoredAt(c, db, key).value) == data
  {
    var env := Envelope(c, meta, Payload(c, data).1);
    assert |c.encode(meta)| >= 1 by {
      assert !Empty(c.encode(meta));
    }
    assert !Empty(env) by {
      assert |env| >= 2;
    }
    EnvelopeRoundTrip(c, key, meta, data);
    assert meta.(serialized := Payload(c, data).0) == meta;
  }

  /** No key under the storage prefix holds a value. */
  ghost predicate NoEntries(db: Store.Db) {
    forall x :: Journal.StoragePrefix <= x ==> Store.At(db, x) == None
  }

  /** Every key of `b` holds what it held in `a`: values are only kept or deleted. */
  ghost predicate Kept(a: Store.Db, b: Store.Db) {
    forall x :: Store.At(b, x).Some? ==> Store.At(b, x) == Store.At(a, x)
  }

  lemma KeptMeta(c: Codec, a: Store.Db, b: Store.Db, key: string)
    requires Kept(a, b) && MetaAt(c, b, key).Some?
    ensures MetaAt(c, a, key) == MetaAt(c, b, key)
  {
    assert Store.At(b, FormatEntryKey(key)).Some?;
  }

  lemma KeptNoEntries(a: Store.Db, b: Store.Db)
    requires Kept(a, b) && NoEntries(a)
    ensures NoEntries(b)
  {
  }

  lemma KeptTrans(a: Store.Db, b: Store.Db, d: Store.Db)
    requires Kept(a, b) && Kept(b, d)
    ensures Kept(a, d)
  {
  }

  /** Every key holds what it held in `a`; only expiry deadlines may differ. */
  ghost predicate SameValues(a: Store.Db, b: Store.Db) {
    forall x :: Store.At(b, x) == Store.At(a, x)
  }

  /**
   * The entry with metadata `meta` passes verify in `db`, following dependent items `fuel`
   * levels deep: it has not expired, its callbacks hold, its sliding expiry is not negative
   * (a negative EXPIRE would delete it), and every dependent item still has its recorded
   * stamp and, when it exists, passes in turn.
   */
  ghost predicate Passes(c: Codec, db: Store.Db, meta: Meta, now: int, fuel: nat)
    decreases fuel, 1
  {
    && !Expired(meta, now) && CallbacksHold(c, meta)
    && (meta.delta.Some? ==> meta.delta.value >= 0)
    && forall i :: 0 <= i < |meta.items| ==> ItemPasses(c, db, meta.items[i], now, fuel)
  }

  /** A dependent item with its recorded stamp passes: the stamp is current, the item passes in turn. */
  ghost predicate ItemPasses(c: Codec, db: Store.Db, item: (string, Option<string>), now: int, fuel: nat)
    decreases fuel, 0
  {
    && !ItemStale(item.1, MetaAt(c, db, item.0))
    && (MetaAt(c, db, item.0).Some? ==> fuel > 0 && Passes(c, db, MetaAt(c, db, item.0).value, now, fuel - 1))
  }

  lemma SameValuesMeta(c: Codec, a: Store.Db, b: Store.Db, key: string)
    requires SameValues(a, b)
    ensures MetaAt(c, b, key) == MetaAt(c, a, key)
  {
    assert Store.At(b, FormatEntryKey(key)) == Store.At(a, FormatEntryKey(key));
  }

  /** Whether an entry passes depends on the values of the keys only. */
  lemma {:induction false} SameValuesPasses(c: Codec, a: Store.Db, b: Store.Db, meta: Meta, now: int, fuel: nat)
    requires SameValues(a, b) && Passes(c, a, meta, now, fuel)
    ensures Passes(c, b, meta, now, fuel)
    decreases fuel
  {
    forall i | 0 <= i < |meta.items|
      ensures ItemPasses(c, b, meta.items[i], now, fuel)
    {
      assert ItemPasses(c, a, meta.items[i], now, fuel);
      SameValuesMeta(c, a, b, meta.items[i].0);
      if MetaAt(c, a, meta.items[i].0).Some? {
        SameValuesPasses(c, a, b, MetaAt(c, a, meta.items[i].0).value, now, fuel - 1);
      }
    }
  }

  /** The keyspace after verify's first check: a non-zero sliding expiry is sent as EXPIRE. */
  function Touched(db: Store.Db, key: string, meta: Meta, now: int): (r: Store.Db)
    ensures Kept(db, r)
    ensures meta.delta.Some? && meta.delta.value > 0 ==> SameValues(db, r)
    ensures !(meta.delta.Some? && meta.delta.value != 0) ==> r == db
  {
    if meta.delta.Some? && meta.delta.value != 0 then Store.Expire(db, FormatEntryKey(key), meta.delta.value, now) else db
  }

  /**
   * A run of verify from `db`: whether it succeeds, and the keyspace it leaves. The entry's
   * own checks come first; then the dependent items in order, each read in the keyspace the
   * items before it left; a failure deletes the entry.
   */
  function VerifyRun(c: Codec, db: Store.Db, key: string, meta: Meta, now: int, fuel: nat): (Store.Db, bool)
    decreases fuel, 2
  {
    var touched := Touched(db, key, meta, now);
    var (db', failed) := if Expired(meta, now) || !CallbacksHold(c, meta) then (touched, true)
                         else ItemsRun(c, touched, meta.items, now, fuel);
    if failed then (Store.Del(db', [FormatEntryKey(key)]), false) else (db', true)
  }

  /** verify's loop over `items` from `db`: the keyspace it leaves and whether some item failed. */
  function ItemsRun(c: Codec, db: Store.Db, items: seq<(string, Option<string>)>, now: int, fuel: nat): (Store.Db, bool)
    decreases fuel, 1, |items|
  {
    if items == [] then (db, false)
    else
      var (db', failed) := ItemRun(c, db, items[0], now, fuel);
      if failed then (db', true) else ItemsRun(c, db', items[1..], now, fuel)
  }

  /** One dependent item: a changed stamp fails; an existing item must verify in turn, with less fuel. */
  function ItemRun(c: Codec, db: Store.Db, item: (string, Option<string>), now: int, fuel: nat): (Store.Db, bool)
    decreases fuel, 0
  {
    var m := MetaAt(c, db, item.0);
    if ItemStale(item.1, m) then (db, true)
    else if m.None? then (db, false)
    else if fuel == 0 then (db, true)
    else
      var (db', ok) := VerifyRun(c, db, item.0, m.value, now, fuel - 1);
      (db', !ok)
  }

  /** The keyspace in which verify reads the `i`-th dependent item. */
  function Reached(c: Codec, db: Store.Db, key: string, meta: Meta, now: int, fuel: nat, i: nat): Store.Db
    requires i <= |meta.items|
  {
    ItemsRun(c, Touched(db, key, meta, now), meta.items[..i], now, fuel).0
  }

  /**
   * What a successful verify has established: the entry has not expired, its callbacks hold,
   * and every dependent item, read when verify reaches it, has its recorded stamp and, when
   * it exists, verifies in turn.
   */
  ghost predicate Verified(c: Codec, db: Store.Db, key: string, meta: Meta, now: int, fuel: nat) {
    && !Expired(meta, now) && CallbacksHold(c, meta)
    && forall i :: 0 <= i < |meta.items| ==> ItemVerified(c, Reached(c, db, key, meta, now, fuel, i), meta.items[i], now, fuel)
  }

  ghost predicate ItemVerified(c: Codec, db: Store.Db, item: (string, Option<string>), now: int, fuel: nat) {
    && !ItemStale(item.1, MetaAt(c, db, item.0))
    && (MetaAt(c, db, item.0).Some? ==> fuel > 0 && VerifyRun(c, db, item.0, MetaAt(c, db, item.0).value, now, fuel - 1).1)
  }

  /** verify's loop gets through `items` exactly when each item gets through in the keyspace the ones before it left. */
  lemma {:induction false} ItemsRunPasses(c: Codec, db: Store.Db, items: seq<(string, Option<string>)>, now: int, fuel: nat)
    ensures !ItemsRun(c, db, items, now, fuel).1 <==>
              forall i :: 0 <= i < |items| ==> ItemVerified(c, ItemsRun(c, db, items[..i], now, fuel).0, items[i], now, fuel)
    decreases |items|
  {
    if items != [] {
      var (db', failed) := ItemRun(c, db, items[0], now, fuel);
      assert items[..0] == [];
      if !failed {
        ItemsRunPasses(c, db', items[1..], now, fuel);
        forall i | 1 <= i < |items|
          ensures ItemsRun(c, db, items[..i], now, fuel).0 == ItemsRun(c, db', items[1..][..i - 1], now, fuel).0
        {
          assert items[..i][0] == items[0] && items[..i][1..] == items[1..][..i - 1];
        }
        assert forall i :: 1 <= i < |items| ==> items[1..][i - 1] == items[i];
        if !ItemsRun(c, db', items[1..], now, fuel).1 {
          assert forall i :: 0 <= i < |items[1..]| ==>
            ItemVerified(c, ItemsRun(c, db', items[1..][..i], now, fuel).0, items[1..][i], now, fuel);
        } else {
          var j :| 0 <= j < |items[1..]| && !ItemVerified(c, ItemsRun(c, db', items[1..][..j], now, fuel).0, items[1..][j], now, fuel);
          assert !ItemVerified(c, ItemsRun(c, db, items[..j + 1], now, fuel).0, items[j + 1], now, fuel);
        }
      }
    }
  }

  /** verify succeeds exactly when what Verified states holds. */
  lemma VerifyRunPasses(c: Codec, db: Store.Db, key: string, meta: Meta, now: int, fuel: nat)
    ensures VerifyRun(c, db, key, meta, now, fuel).1 <==> Verified(c, db, key, meta, now, fuel)
  {
    ItemsRunPasses(c, Touched(db, key, meta, now), meta.items, now, fuel);
  }

  /** The dependent items recorded by write: each named item once, with its stamp in `db`. */
  ghost predicate RecordsTimes(c: Codec, db: Store.Db, names: seq<string>, items: seq<(string, Option<string>)>) {
    && (forall i :: 0 <= i < |items| ==> items[i].0 in names && items[i].1 == TimeOf(MetaAt(c, db, items[i].0)))
    && (forall k :: 0 <= k < |names| ==> exists i :: 0 <= i < |items| && items[i].0 == names[k])
    && (forall i, j :: 0 <= i < j < |items| ==> items[i].0 != items[j].0)
  }

  /** One more item assigned: a new name is appended with its stamp, a repeated one keeps its place. */
  lemma RecordsSlice(c: Codec, db: Store.Db, names: seq<string>, i: nat, items: seq<(string, Option<string>)>)
    requires i < |names| && RecordsTimes(c, db, names[..i] + [names[i]], items)
    ensures RecordsTimes(c, db, names[..i + 1], items)
  {
    assert names[..i + 1] == names[..i] + [names[i]];
  }

  lemma RecordOneMore(c: Codec, db: Store.Db, names: seq<string>, items: seq<(string, Option<string>)>,
                      name: string, next: seq<(string, Option<string>)>)
    requires RecordsTimes(c, db, names, items)
    requires (exists j :: 0 <= j < |items| && items[j].0 == name) ==> next == items
    requires !(exists j :: 0 <= j < |items| && items[j].0 == name) ==> next == items + [(name, TimeOf(MetaAt(c, db, name)))]
    ensures RecordsTimes(c, db, names + [name], next)
  {
    var seen := names + [name];
    forall k | 0 <= k < |seen|
      ensures exists j :: 0 <= j < |next| && next[j].0 == seen[k]
    {
      if k < |names| {
        assert seen[k] == names[k];
        var j :| 0 <= j < |items| && items[j].0 == names[k];
        assert next[j] == items[j];
      } else if next != items {
        assert next[|items|].0 == name;
      }
    }
  }

  /** multiRead's view of an mget answer: only a missing key reads as nothing. */
  function SnapshotAt(c: Codec, db: Store.Db, key: string): Option<Stored> {
    var v := Store.GetStr(db, FormatEntryKey(key));
    if v.None? then None else Some(ProcessStoredValue(c, key, v.value))
  }

  /** A value multiRead reports for a snapshot: null for no entry, else null or the payload. */
  predicate ReadFrom(c: Codec, snapshot: Option<Stored>, value: Data) {
    && (snapshot.None? ==> value == Null)
    && (value != Null ==> snapshot.Some? && value == Unserialized(c, snapshot.value))
  }

  /** Every value multiRead reports is what `db` had for its key, or null. */
  ghost predicate ReadsFrom(c: Codec, db: Store.Db, values: map<string, Data>) {
    forall k :: k in values ==> ReadFrom(c, SnapshotAt(c, db, k), values[k])
  }

  /** Every requested entry present in `db` passes verify there. */
  ghost predicate AllPass(c: Codec, db: Store.Db, keys: seq<string>, now: int, fuel: nat) {
    forall k :: k in keys && SnapshotAt(c, db, k).Some? ==> Passes(c, db, SnapshotAt(c, db, k).value.meta, now, fuel)
  }

  /** The value a snapshot holds: its payload, or null when there is no entry. */
  function Payloads(c: Codec, snapshot: Option<Stored>): (r: Data)
    ensures ReadFrom(c, snapshot, r)
  {
    if snapshot.Some? then Unserialized(c, snapshot.value) else Null
  }

  /** Every key keeps its value, and every value multiRead reports is the payload of its snapshot. */
  ghost predicate ReadAll(c: Codec, db0: Store.Db, db: Store.Db, values: map<string, Data>) {
    && SameValues(db0, db)
    && forall k :: k in values ==> values[k] == Payloads(c, SnapshotAt(c, db0, k))
  }

  /** What multiRead's loop has established after the first `i` keys of `order`, reading from the snapshot state `db0`. */
  ghost predicate EachSoFar(c: Codec, db0: Store.Db, db: Store.Db, order: seq<string>, i: nat, snapshots: map<string, Option<Stored>>,
                            values: map<string, Data>, pass: bool, now: int, fuel: nat) {
    && i <= |order|
    && (forall k :: k in order ==> k in snapshots)
    && values.Keys == Elems(order[..i])
    && ReadsFrom(c, db0, values) && Kept(db0, db)
    && (pass ==> ReadAll(c, db0, db, values))
    && ReadRun(c, db0, order, snapshots, map[], now, fuel) == ReadRun(c, db, order[i..], snapshots, values, now, fuel)
  }

  /** One value of multiRead from `db`: null without an entry, else the payload when verify succeeds. */
  function ReadOneRun(c: Codec, db: Store.Db, key: string, stored: Option<Stored>, now: int, fuel: nat): (r: (Store.Db, Data))
    ensures stored.None? ==> r == (db, Null)
    ensures ReadVerified(c, db, key, stored, r.1, now, fuel)
  {
    if stored.None? then (db, Null)
    else
      var (db', ok) := VerifyRun(c, db, key, stored.value.meta, now, fuel);
      VerifyRunPasses(c, db, key, stored.value.meta, now, fuel);
      (db', if ok then Unserialized(c, stored.value) else Null)
  }

  /** A value read for `key` in `db` is null, or the payload of a snapshot whose verify succeeded there. */
  ghost predicate ReadVerified(c: Codec, db: Store.Db, key: string, stored: Option<Stored>, value: Data, now: int, fuel: nat) {
    value != Null ==> stored.Some? && value == Unserialized(c, stored.value) && Verified(c, db, key, stored.value.meta, now, fuel)
  }

  /** multiRead's loop from `db` over `order`, adding to `values`: the values and the keyspace it leaves. */
  function ReadRun(c: Codec, db: Store.Db, order: seq<string>, snapshots: map<string, Option<Stored>>,
                   values: map<string, Data>, now: int, fuel: nat): (r: (map<string, Data>, Store.Db))
    requires forall k :: k in order ==> k in snapshots
    ensures r.0.Keys == values.Keys + Elems(order)
    ensures forall k :: k in values && k !in order ==> r.0[k] == values[k]
    decreases |order|
  {
    if order == [] then (values, db)
    else
      var (db', value) := ReadOneRun(c, db, order[0], snapshots[order[0]], now, fuel);
      ReadRun(c, db', order[1..], snapshots, values[order[0] := value], now, fuel)
  }

  /** The snapshot multiRead takes of `keys` with one MGET. */
  function Snapshots(c: Codec, db: Store.Db, keys: seq<string>): (r: map<string, Option<Stored>>)
    ensures r.Keys == Elems(keys)
  {
    map k | k in keys :: SnapshotAt(c, db, k)
  }

  /**
   * Each key multiRead reads gets what reading it alone would give in the keyspace the keys
   * before it left; by ReadOneRun that is null, or the payload of an entry that verified there.
   */
  lemma {:induction false} ReadRunEach(c: Codec, db: Store.Db, order: seq<string>, snapshots: map<string, Option<Stored>>,
                                       values: map<string, Data>, now: int, fuel: nat)
    requires NoDup(order) && forall k :: k in order ==> k in snapshots
    ensures forall i :: 0 <= i < |order| ==>
              ReadRun(c, db, order, snapshots, values, now, fuel).0[order[i]]
              == ReadOneRun(c, ReadRun(c, db, order[..i], snapshots, values, now, fuel).1, order[i], snapshots[order[i]], now, fuel).1
    decreases |order|
  {
    if order != [] {
      var k := order[0];
      var (db', value) := ReadOneRun(c, db, k, snapshots[k], now, fuel);
      var rest := order[1..];
      var values' := values[k := value];
      RestNoDup(order);
      ReadRunEach(c, db', rest, snapshots, values', now, fuel);
      ReadRunFirst(c, db, order, snapshots, values, now, fuel, |order|);
      assert order[..|order|] == order;
      assert order[..0] == [];
      forall i | 1 <= i < |order|
        ensures ReadRun(c, db, order, snapshots, values, now, fuel).0[order[i]]
                == ReadOneRun(c, ReadRun(c, db, order[..i], snapshots, values, now, fuel).1, order[i], snapshots[order[i]], now, fuel).1
      {
        ReadRunFirst(c, db, order, snapshots, values, now, fuel, i);
        assert order[i] == rest[i - 1];
      }
    }
  }

  /** Each key of `order` is null, or the payload of its snapshot that verified where multiRead reached it. */
  lemma ReadRunVerified(c: Codec, db: Store.Db, order: seq<string>, snapshots: map<string, Option<Stored>>, now: int, fuel: nat)
    requires NoDup(order) && forall k :: k in order ==> k in snapshots
    ensures forall i :: 0 <= i < |order| ==>
              ReadVerified(c, ReadRun(c, db, order[..i], snapshots, map[], now, fuel).1, order[i], snapshots[order[i]],
                           ReadRun(c, db, order, snapshots, map[], now, fuel).0[order[i]], now, fuel)
  {
    ReadRunEach(c, db, order, snapshots, map[], now, fuel);
    forall i | 0 <= i < |order|
      ensures ReadVerified(c, ReadRun(c, db, order[..i], snapshots, map[], now, fuel).1, order[i], snapshots[order[i]],
                           ReadRun(c, db, order, snapshots, map[], now, fuel).0[order[i]], now, fuel)
    {
      var here := ReadRun(c, db, order[..i], snapshots, map[], now, fuel).1;
      var r := ReadOneRun(c, here, order[i], snapshots[order[i]], now, fuel);
    }
  }

  /** One more key read: the rest of the loop continues from the keyspace it leaves. */
  lemma ReadRunStep(c: Codec, db: Store.Db, order: seq<string>, i: nat, snapshots: map<string, Option<Stored>>,
                    values: map<string, Data>, now: int, fuel: nat)
    requires i < |order| && forall k :: k in order ==> k in snapshots
    ensures ReadRun(c, db, order[i..], snapshots, values, now, fuel)
      == ReadRun(c, ReadOneRun(c, db, order[i], snapshots[order[i]], now, fuel).0, order[i + 1..], snapshots,
                 values[order[i] := ReadOneRun(c, db, order[i], snapshots[order[i]], now, fuel).1], now, fuel)
  {
    assert order[i..][0] == order[i] && order[i..][1..] == order[i + 1..];
  }

  /** Reading the first `i` keys is reading the first one, then the next `i - 1` from where it left off. */
  lemma ReadRunFirst(c: Codec, db: Store.Db, order: seq<string>, snapshots: map<string, Option<Stored>>,
                     values: map<string, Data>, now: int, fuel: nat, i: nat)
    requires 1 <= i <= |order| && forall k :: k in order ==> k in snapshots
    ensures var (db', value) := ReadOneRun(c, db, order[0], snapshots[order[0]], now, fuel);
      ReadRun(c, db, order[..i], snapshots, values, now, fuel)
      == ReadRun(c, db', order[1..][..i - 1], snapshots, values[order[0] := value], now, fuel)
  {
    assert order[..i][0] == order[0] && order[..i][1..] == order[1..][..i - 1];
  }

  lemma RestNoDup(order: seq<string>)
    requires order != [] && NoDup(order)
    ensures NoDup(order[1..]) && order[0] !in order[1..]
  {
    assert forall j :: 0 <= j < |order[1..]| ==> order[1..][j] == order[j + 1];
  }

  lemma ReadAllOneMore(c: Codec, db0: Store.Db, before: Store.Db, after: Store.Db, values: map<string, Data>,
                       key: string, value: Data)
    requires ReadAll(c, db0, before, values) && SameValues(before, after)
    requires value == Payloads(c, SnapshotAt(c, db0, key))
    ensures ReadAll(c, db0, after, values[key := value])
  {
  }

  lemma ReadsFromOneMore(c: Codec, db: Store.Db, values: map<string, Data>, key: string, value: Data)
    requires ReadsFrom(c, db, values) && ReadFrom(c, SnapshotAt(c, db, key), value)
    ensures ReadsFrom(c, db, values[key := value])
  {
  }

  class RedisStorage {
    const client: Client.RedisClient
    const journal: Option<Journal.RedisJournal>
    const codec: Codec
    var useLocks: bool

    constructor (client: Client.RedisClient, journal: Option<Journal.RedisJournal>, codec: Codec)
      ensures this.client == client && this.journal == journal && this.codec == codec && useLocks
    {
      this.client := client;
      this.journal := journal;
      this.codec := codec;
      useLocks := true;
    }

    /** The objects a storage operation may change: the server, the lease lock and the journal's server. */
    function Footprint(): set<object>
      reads this, if journal.Some? then {journal.value} else {}
    {
      {client.server, client.lock} + if journal.Some? then {journal.value.client} else {}
    }

    method DisableLocking()
      modifies this
      ensures !useLocks
    {
      useLocks := false;
    }

    /** doRead */
    method DoRead(key: string) returns (r: Option<Stored>)
      ensures r == StoredAt(codec, client.server.db, key)
    {
      var v := client.server.Get(FormatEntryKey(key));
      if v.None? || Empty(v.value) {
        return None;
      }
      return Some(ProcessStoredValue(codec, key, v.value));
    }

    /** readMeta */
    method ReadMeta(key: string) returns (r: Option<Meta>)
      ensures r == MetaAt(codec, client.server.db, key)
    {
      var s := DoRead(key);
      r := if s.Some? then Some(s.value.meta) else None;
    }

    /** remove */
    method Remove(key: string)
      modifies client.server
      ensures client.server.db == Store.Del(old(client.server.db), [FormatEntryKey(key)])
    {
      client.server.Del([FormatEntryKey(key)]);
    }

    /**
     * verify. A sliding expiry refreshes the entry's TTL, otherwise a past absolute expiry
     * fails; failing callbacks fail; a dependent item whose stamp changed, or which fails its
     * own verification, fails. A failure deletes the entry. `fuel` bounds the depth of
     * dependent items followed; an item that would need more fails.
     */
    method Verify(key: string, meta: Meta, now: int, fuel: nat) returns (ok: bool)
      modifies client.server
      ensures Kept(old(client.server.db), client.server.db)
      ensures !ok ==> Store.At(client.server.db, FormatEntryKey(key)) == None
      ensures ok ==> !Expired(meta, now) && CallbacksHold(codec, meta)
      ensures ok ==> forall i :: 0 <= i < |meta.items| && meta.items[i].1.Some? ==>
                TimeOf(MetaAt(codec, old(client.server.db), meta.items[i].0)) == meta.items[i].1
      ensures Passes(codec, old(client.server.db), meta, now, fuel) ==> ok && SameValues(old(client.server.db), client.server.db)
      ensures (client.server.db, ok) == VerifyRun(codec, old(client.server.db), key, meta, now, fuel)
      ensures ok ==> Verified(codec, old(client.server.db), key, meta, now, fuel)
      decreases fuel, 1
    {
      ghost var db0 := client.server.db;
      var failed := CheckEntry(key, meta, now);
      ghost var run := if failed then (client.server.db, true) else ItemsRun(codec, client.server.db, meta.items, now, fuel);
      assert meta.items[0..] == meta.items;
      var i := 0;
      while !failed && i < |meta.items|
        invariant 0 <= i <= |meta.items|
        invariant Kept(db0, client.server.db)
        invariant run == if failed then (client.server.db, true) else ItemsRun(codec, client.server.db, meta.items[i..], now, fuel)
        invariant !failed ==> forall j :: 0 <= j < i && meta.items[j].1.Some? ==>
                    TimeOf(MetaAt(codec, db0, meta.items[j].0)) == meta.items[j].1
        invariant Passes(codec, db0, meta, now, fuel) ==> !failed && SameValues(db0, client.server.db)
      {
        if Passes(codec, db0, meta, now, fuel) {
          assert ItemPasses(codec, db0, meta.items[i], now, fuel);
        }
        assert meta.items[i..][0] == meta.items[i] && meta.items[i..][1..] == meta.items[i + 1..];
        failed := VerifyItem(meta.items[i], db0, now, fuel);
        i := i + 1;
      }
      VerifyRunPasses(codec, db0, key, meta, now, fuel);
      if failed {
        ghost var before := client.server.db;
        Remove(key);
        assert Kept(before, client.server.db);
        KeptTrans(db0, before, client.server.db);
        return false;
      }
      return true;
    }

    /**
     * The first two checks of verify: a sliding expiry refreshes the TTL, otherwise a past
     * absolute expiry fails; then the callbacks must hold.
     */
    method CheckEntry(key: string, meta: Meta, now: int) returns (failed: bool)
      modifies client.server
      ensures Kept(old(client.server.db), client.server.db)
      ensures !failed <==> !Expired(meta, now) && CallbacksHold(codec, meta)
      ensures !failed && (meta.delta.Some? ==> meta.delta.value >= 0) ==> SameValues(old(client.server.db), client.server.db)
      ensures meta.delta.Some? && meta.delta.value > 0 && Store.At(old(client.server.db), FormatEntryKey(key)).Some? ==>
                Store.Ttl(client.server.db, FormatEntryKey(key)) == Some(now + meta.delta.value)
      ensures client.server.db == Touched(old(client.server.db), key, meta, now)
    {
      failed := false;
      if meta.delta.Some? && meta.delta.value != 0 {
        client.server.Expire(FormatEntryKey(key), meta.delta.value, now);
      } else if meta.expire.Some? && meta.expire.value != 0 && meta.expire.value < now {
        failed := true;
      }
      if !failed && meta.callbacks != [] && !codec.checkCallbacks(meta.callbacks) {
        failed := true;
      }
    }

    /** One dependent item of verify: its stamp must be the recorded one, and it must verify in turn. */
    method VerifyItem(item: (string, Option<string>), ghost db0: Store.Db, now: int, fuel: nat) returns (failed: bool)
      requires Kept(db0, client.server.db)
      modifies client.server
      ensures Kept(db0, client.server.db)
      ensures !failed && item.1.Some? ==> TimeOf(MetaAt(codec, db0, item.0)) == item.1
      ensures ItemPasses(codec, db0, item, now, fuel) && SameValues(db0, old(client.server.db)) ==>
                !failed && SameValues(db0, client.server.db)
      ensures (client.server.db, failed) == ItemRun(codec, old(client.server.db), item, now, fuel)
      decreases fuel, 0
    {
      var m := ReadMeta(item.0);
      if ItemPasses(codec, db0, item, now, fuel) && SameValues(db0, client.server.db) {
        SameValuesMeta(codec, db0, client.server.db, item.0);
      }
      if ItemStale(item.1, m) {
        return true;
      }
      if m.None? {
        return false;
      }
      KeptMeta(codec, db0, client.server.db, item.0);
      if fuel == 0 {
        return true;
      }
      ghost var before := client.server.db;
      if ItemPasses(codec, db0, item, now, fuel) && SameValues(db0, before) {
        SameValuesPasses(codec, db0, before, m.value, now, fuel - 1);
      }
      var sub := Verify(item.0, m.value, now, fuel - 1);
      KeptTrans(db0, before, client.server.db);
      failed := !sub;
    }

    /**
     * read: nothing when there is no entry; otherwise the payload, once the metadata
     * verifies. An entry that fails verification is deleted and reads as nothing.
     */
    method Read(key: string, now: int, fuel: nat) returns (r: Data)
      modifies client.server
      ensures StoredAt(codec, old(client.server.db), key).None? ==> r == Null && client.server.db == old(client.server.db)
      ensures var s := StoredAt(codec, old(client.server.db), key);
        s.Some? ==> ((r == Unserialized(codec, s.value) && !Expired(s.value.meta, now) && CallbacksHold(codec, s.value.meta))
                     || (r == Null && Store.At(client.server.db, FormatEntryKey(key)) == None))
      ensures var s := StoredAt(codec, old(client.server.db), key);
        s.Some? && Passes(codec, old(client.server.db), s.value.meta, now, fuel) ==>
          r == Unserialized(codec, s.value) && SameValues(old(client.server.db), client.server.db)
      ensures var s := StoredAt(codec, old(client.server.db), key);
        s.Some? ==> (client.server.db, r) == ReadOneRun(codec, old(client.server.db), key, s, now, fuel)
      ensures r != Null ==> ReadVerified(codec, old(client.server.db), key, StoredAt(codec, old(client.server.db), key), r, now, fuel)
    {
      var stored := DoRead(key);
      if stored.None? {
        return Null;
      }
      var ok := Verify(key, stored.value.meta, now, fuel);
      if !ok {
        return Null;
      }
      return Unserialized(codec, stored.value);
    }

    /** doMultiRead: one MGET, then each answer split, keyed by the requested key. */
    method DoMultiRead(keys: seq<string>) returns (result: map<string, Option<Stored>>)
      ensures forall k :: k in result <==> k in keys
      ensures forall k :: k in result ==> result[k] == SnapshotAt(codec, client.server.db, k)
      ensures result == Snapshots(codec, client.server.db, keys)
    {
      var formatted := seq(|keys|, i requires 0 <= i < |keys| => FormatEntryKey(keys[i]));
      var answers := client.server.MGet(formatted);
      result := map[];
      var i := 0;
      while i < |answers|
        invariant 0 <= i <= |answers|
        invariant forall k :: k in result <==> k in keys[..i]
        invariant forall k :: k in result ==> result[k] == SnapshotAt(codec, client.server.db, k)
      {
        var key := keys[i];
        result := result[key := if answers[i].Some? then Some(ProcessStoredValue(codec, key, answers[i].value)) else None];
        assert keys[..i + 1] == keys[..i] + [key];
        i := i + 1;
      }
      assert keys[..i] == keys;
      assert result.Keys == Snapshots(codec, client.server.db, keys).Keys;
    }

    /**
     * multiRead: a value for every requested key, from one MGET snapshot; each present entry
     * is verified in turn, and one that fails reads as null.
     */
    method MultiRead(keys: seq<string>, now: int, fuel: nat) returns (values: map<string, Data>)
      modifies client.server
      ensures forall k :: k in values <==> k in keys
      ensures ReadsFrom(codec, old(client.server.db), values)
      ensures Kept(old(client.server.db), client.server.db)
      ensures AllPass(codec, old(client.server.db), keys, now, fuel) ==> ReadAll(codec, old(client.server.db), client.server.db, values)
      ensures (values, client.server.db) == ReadRun(codec, old(client.server.db), Dedup(keys), Snapshots(codec, old(client.server.db), keys), map[], now, fuel)
      ensures var order := Dedup(keys);
        forall i :: 0 <= i < |order| ==>
          ReadVerified(codec, ReadRun(codec, old(client.server.db), order[..i], Snapshots(codec, old(client.server.db), keys), map[], now, fuel).1,
                       order[i], SnapshotAt(codec, old(client.server.db), order[i]), values[order[i]], now, fuel)
    {
      ghost var db0 := client.server.db;
      var result := DoMultiRead(keys);
      ghost var pass := AllPass(codec, db0, keys, now, fuel);
      values := ReadEach(Dedup(keys), result, db0, pass, now, fuel);
      ReadRunVerified(codec, db0, Dedup(keys), result, now, fuel);
    }

    /** multiRead's loop: each distinct requested key in turn, verified against the live state. */
    method ReadEach(order: seq<string>, result: map<string, Option<Stored>>, ghost db0: Store.Db,
                    ghost pass: bool, now: int, fuel: nat) returns (values: map<string, Data>)
      requires forall k :: k in order ==> k in result
      requires forall k :: k in result ==> result[k] == SnapshotAt(codec, db0, k)
      requires pass ==> forall k :: k in order && result[k].Some? ==> Passes(codec, db0, result[k].value.meta, now, fuel)
      requires client.server.db == db0
      modifies client.server
      ensures values.Keys == Elems(order)
      ensures ReadsFrom(codec, db0, values)
      ensures Kept(db0, client.server.db)
      ensures pass ==> ReadAll(codec, db0, client.server.db, values)
      ensures (values, client.server.db) == ReadRun(codec, db0, order, result, map[], now, fuel)
    {
      values := map[];
      var i := 0;
      assert order[0..] == order;
      while i < |order|
        invariant EachSoFar(codec, db0, client.server.db, order, i, result, values, pass, now, fuel)
      {
        var key := order[i];
        assert key in order && result[key] == SnapshotAt(codec, db0, key);
        var value := ReadNext(key, result[key], db0, values, pass, now, fuel, order, i, result);
        values := values[key := value];
        i := i + 1;
      }
      assert order[..i] == order;
    }

    /** One round of multiRead's loop, seen from the snapshot state `db0`. */
    method ReadNext(key: string, stored: Option<Stored>, ghost db0: Store.Db, ghost values: map<string, Data>,
                    ghost pass: bool, now: int, fuel: nat,
                    ghost order: seq<string>, ghost i: nat, ghost result: map<string, Option<Stored>>) returns (value: Data)
      requires EachSoFar(codec, db0, client.server.db, order, i, result, values, pass, now, fuel)
      requires stored == SnapshotAt(codec, db0, key)
      requires i < |order| && key == order[i] && stored == result[key]
      requires pass ==> stored.Some? ==> Passes(codec, db0, stored.value.meta, now, fuel)
      modifies client.server
      ensures (client.server.db, value) == ReadOneRun(codec, old(client.server.db), key, stored, now, fuel)
      ensures EachSoFar(codec, db0, client.server.db, order, i + 1, result, values[key := value], pass, now, fuel)
    {
      ghost var before := client.server.db;
      ReadRunStep(codec, before, order, i, result, values, now, fuel);
      ElemsSnoc(order, i);
      if pass && stored.Some? {
        SameValuesPasses(codec, db0, before, stored.value.meta, now, fuel);
      }
      value := ReadOne(key, stored, now, fuel);
      if pass {
        ReadAllOneMore(codec, db0, before, client.server.db, values, key, value);
      }
      KeptTrans(db0, before, client.server.db);
      ReadsFromOneMore(codec, db0, values, key, value);
    }

    /** One value of multiRead: the payload of a snapshot that verifies, else null. */
    method ReadOne(key: string, stored: Option<Stored>, now: int, fuel: nat) returns (value: Data)
      modifies client.server
      ensures ReadFrom(codec, stored, value)
      ensures Kept(old(client.server.db), client.server.db)
      ensures stored.Some? && Passes(codec, old(client.server.db), stored.value.meta, now, fuel) ==>
                value == Payloads(codec, stored) && SameValues(old(client.server.db), client.server.db)
      ensures stored.None? ==> value == Null && client.server.db == old(client.server.db)
      ensures (client.server.db, value) == ReadOneRun(codec, old(client.server.db), key, stored, now, fuel)
      ensures ReadVerified(codec, old(client.server.db), key, stored, value, now, fuel)
    {
      value := Null;
      if stored.Some? {
        var ok := Verify(key, stored.value.meta, now, fuel);
        if ok {
          value := Unserialized(codec, stored.value);
        }
      }
    }

    /** lock: takes the entry's lease, unless locking is disabled. */
    method Lock(key: string, now: int, wait: Store.Wait) returns (r: Result<bool, Error>)
      requires client.Valid()
      modifies client.lock, client.server
      ensures !useLocks ==> r == Success(true) && client.server.db == old(client.server.db) && client.lock.keys == old(client.lock.keys)
      ensures useLocks ==>
                LockSpec.Outcome(client.lock.Current(), r)
                == LockSpec.Acquire(old(client.lock.Settings()), old(client.lock.Current()), FormatEntryKey(key), now, wait)
    {
      if !useLocks {
        return Success(true);
      }
      r := client.Lock(FormatEntryKey(key), now, wait);
    }

    /** unlock: releases the entry's lease, unless locking is disabled. */
    method Unlock(key: string, now: int)
      requires client.Valid()
      modifies client.lock, client.server
      ensures !useLocks ==> client.server.db == old(client.server.db) && client.lock.keys == old(client.lock.keys)
      ensures useLocks ==> client.lock.Current() == LockSpec.Release(old(client.lock.Current()), FormatEntryKey(key), now).state
      ensures client.lock.Settings() == old(client.lock.Settings())
    {
      if useLocks {
        client.Unlock(FormatEntryKey(key), now);
      }
    }

    /** The metadata write builds: the stamp, the expiry and the dependent items' stamps. */
    method BuildMeta(dp: Dp, now: int, stamp: string) returns (meta: Meta)
      ensures meta.time == Some(stamp) && !meta.serialized
      ensures (meta.expire, meta.delta) == Expiration(dp, now)
      ensures RecordsTimes(codec, client.server.db, dp.items.GetOr([]), meta.items)
      ensures meta.callbacks == dp.callbacks.GetOr([])
    {
      var e := Expiration(dp, now);
      var names := dp.items.GetOr([]);
      var items: seq<(string, Option<string>)> := [];
      var i := 0;
      while i < |names|
        invariant 0 <= i <= |names|
        invariant RecordsTimes(codec, client.server.db, names[..i], items)
      {
        var name := names[i];
        var m := ReadMeta(name);
        ghost var previous := items;
        if !exists j :: 0 <= j < |items| && items[j].0 == name {
          items := items + [(name, TimeOf(m))];
        }
        RecordOneMore(codec, client.server.db, names[..i], previous, name, items);
        RecordsSlice(codec, client.server.db, names, i, items);
        i := i + 1;
      }
      assert names[..i] == names;
      meta := Meta(Some(stamp), false, e.0, e.1, items, dp.callbacks.GetOr([]));
    }

    /**
     * write. Tags or a priority without a journal fail before anything is stored; with one,
     * the journal records them under the entry key. The envelope is then stored, with the
     * expiration as TTL when one is given, and the lease released. A failing store command
     * (`failure`, or Redis refusing a TTL that is not positive) deletes the entry and fails
     * with its message.
     */
    method Write(key: string, data: Data, dp: Dp, now: int, stamp: string, failure: Option<string>)
      returns (r: Result<(), Error>, ghost meta: Meta)
      requires client.Valid()
      modifies Footprint()
      ensures (dp.tags != Journal.NoTags || dp.priority.Some?) && journal.None? ==>
                r == Failure(InvalidState("CacheJournal has not been provided.")) && client.server.db == old(client.server.db)
      ensures r.Success? <==> failure.None? && Store.Accepts(dp.expiration)
                              && (journal.Some? || (dp.tags == Journal.NoTags && dp.priority.None?))
      ensures r.Success? || failure.Some? || !Store.Accepts(dp.expiration) ==>
                meta.time == Some(stamp) && (meta.expire, meta.delta) == Expiration(dp, now)
                && RecordsTimes(codec, old(client.server.db), dp.items.GetOr([]), meta.items)
                && meta.callbacks == dp.callbacks.GetOr([]) && meta.serialized == Payload(codec, data).0
      ensures r.Success? ==> Store.GetStr(client.server.db, FormatEntryKey(key)) == Some(Envelope(codec, meta, Payload(codec, data).1))
      ensures r.Success? ==> Store.Ttl(client.server.db, FormatEntryKey(key)) == if dp.expiration.Some? then Some(now + dp.expiration.value) else None
      ensures failure.Some? && (journal.Some? || (dp.tags == Journal.NoTags && dp.priority.None?)) ==> r == Failure(InvalidState(failure.value)) && Store.At(client.server.db, FormatEntryKey(key)) == None
      ensures failure.None? && !Store.Accepts(dp.expiration) && (journal.Some? || (dp.tags == Journal.NoTags && dp.priority.None?)) ==>
                r == Failure(InvalidState(Store.SetExRefused)) && Store.At(client.server.db, FormatEntryKey(key)) == None
      ensures journal.Some? && (dp.tags != Journal.NoTags || dp.priority.Some?) ==>
                Journal.Recorded(old(journal.value.client.db), journal.value.client.db, FormatEntryKey(key), Journal.Deps(dp.tags, dp.priority))
      ensures forall x :: x !in WriteKeys(key) && Journal.Outside(x) ==>
                Store.At(client.server.db, x) == Store.At(old(client.server.db), x)
      ensures journal.None? || journal.value.client != client.server || (dp.tags == Journal.NoTags && dp.priority.None?) ==>
                Store.SameExcept(old(client.server.db), client.server.db, WriteKeys(key))
      ensures journal.Some? && journal.value.client != client.server ==>
                if dp.tags != Journal.NoTags || dp.priority.Some? then Journal.JournalOnly(old(journal.value.client.db), journal.value.client.db)
                else journal.value.client.db == old(journal.value.client.db)
    {
      var built := BuildMeta(dp, now, stamp);
      var p := Payload(codec, data);
      var full := built.(serialized := p.0);
      meta := full;
      if dp.tags != Journal.NoTags || dp.priority.Some? {
        if journal.None? {
          return Failure(InvalidState("CacheJournal has not been provided.")), meta;
        }
        Record(key, dp);
      }
      ghost var s1 := client.server.db;
      r := Save(key, Envelope(codec, full, p.1), dp.expiration, now, failure);
      if journal.Some? && journal.value.client == client.server && (dp.tags != Journal.NoTags || dp.priority.Some?) {
        Journal.RecordedStays(old(client.server.db), s1, client.server.db, FormatEntryKey(key), Journal.Deps(dp.tags, dp.priority));
      }
    }

    /** The journal's part of write: the dependencies recorded under the entry key. */
    method Record(key: string, dp: Dp)
      requires journal.Some?
      modifies journal.value.client
      ensures Journal.EntryWritten(old(journal.value.client.db), journal.value.client.db, FormatEntryKey(key), Journal.Deps(dp.tags, dp.priority))
    {
      journal.value.Write(FormatEntryKey(key), Journal.Deps(dp.tags, dp.priority));
    }

    /**
     * The end of write: the envelope stored and the lease released, or the entry deleted
     * when a store command fails.
     */
    method Save(key: string, store: string, expiration: Option<int>, now: int, failure: Option<string>)
      returns (r: Result<(), Error>)
      requires client.Valid()
      modifies client.server, client.lock
      ensures r.Success? <==> failure.None? && Store.Accepts(expiration)
      ensures failure.Some? ==> r == Failure(InvalidState(failure.value))
      ensures failure.None? && !Store.Accepts(expiration) ==> r == Failure(InvalidState(Store.SetExRefused))
      ensures r.Failure? ==> Store.At(client.server.db, FormatEntryKey(key)) == None
      ensures r.Success? ==> Store.GetStr(client.server.db, FormatEntryKey(key)) == Some(store)
      ensures r.Success? ==> Store.Ttl(client.server.db, FormatEntryKey(key)) ==
                               if expiration.Some? then Some(now + expiration.value) else None
      ensures Store.SameExcept(old(client.server.db), client.server.db, WriteKeys(key))
    {
      var cacheKey := FormatEntryKey(key);
      if failure.Some? {
        Remove(key);
        return Failure(InvalidState(failure.value));
      }
      if expiration.Some? {
        var refused := client.server.SetEx(cacheKey, expiration.value, store, now);
        if refused.Some? {
          Remove(key);
          return Failure(InvalidState(refused.value));
        }
      } else {
        client.server.Set(cacheKey, store);
      }
      Unlock(key, now);
      LockSpec.KeysDistinct(cacheKey, cacheKey);
      assert LockSpec.LockKey(cacheKey) != cacheKey && LockSpec.TimeoutKey(cacheKey) != cacheKey by {
        assert |LockSpec.LockKey(cacheKey)| > |cacheKey|;
        assert |LockSpec.TimeoutKey(cacheKey)| > |cacheKey|;
      }
      return Success(());
    }

    /**
     * clean. With `Cache::ALL` every storage key is deleted, then the journal wipes its own
     * keys. Otherwise the journal selects and drops the entries, deleting their storage keys
     * itself, since it is told it serves a RedisStorage; the list it returns is then always
     * empty, so the `del` of that list never runs and is not part of this method. A full
     * clean fails with the journal's client error when the journal has no key left to delete.
     */
    method Clean(conds: Journal.Conds) returns (r: Result<(), Error>)
      modifies Footprint()
      ensures r.Failure? <==> conds.all && journal.Some? && Store.KeysWithPrefix(old(journal.value.client.db), Journal.Prefix) == {}
      ensures r.Failure? ==> r.error == ClientError(Journal.DelWithoutKeys)
      ensures conds.all ==> NoEntries(client.server.db)
      ensures conds.all && journal.None? ==> forall x :: !(Journal.StoragePrefix <= x) ==>
                Store.At(client.server.db, x) == Store.At(old(client.server.db), x)
      ensures conds.all && journal.Some? ==> forall x :: !(Journal.StoragePrefix <= x) && !(Journal.Prefix <= x) ==>
                Store.At(client.server.db, x) == Store.At(old(client.server.db), x)
      ensures !conds.all && journal.None? ==> client.server.db == old(client.server.db)
      ensures conds.all ==> Kept(old(client.server.db), client.server.db)
      ensures conds.all && journal.Some? ==> Kept(old(journal.value.client.db), journal.value.client.db)
      ensures !conds.all && journal.Some? && Journal.EntriesOutside(old(journal.value.client.db)) ==>
                Journal.Cleaned(old(journal.value.client.db), journal.value.client.db,
                                Journal.TagList(conds.tags), conds.priority, true)
    {
      if conds.all {
        var keys := client.server.Keys(Journal.StoragePrefix);
        if keys != [] {
          client.server.Del(keys);
        }
        if journal.Some? {
          ghost var mid := journal.value.client.db;
          ghost var own := client.server.db;
          if journal.value.client == client.server {
            NoJournalKeysLost(old(client.server.db), mid);
          }
          var cleaned := journal.value.Clean(conds, false);
          assert Kept(mid, journal.value.client.db);
          if journal.value.client == client.server {
            KeptTrans(old(client.server.db), own, client.server.db);
          }
          if cleaned.Failure? {
            return Failure(cleaned.error);
          }
        }
        return Success(());
      }
      if journal.Some? {
        var keys := journal.value.Clean(conds, true);
        assert keys == Success(Some([]));
      }
      return Success(());
    }
  }
}
