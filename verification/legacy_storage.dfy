/**
 * The first-generation cache storage: every entry is two keys, the payload under
 * `Nette.Storage:<key>` and its JSON metadata under `Nette.Storage:<key>:meta`, with the
 * list-based journal keeping tags and priorities under the raw cache key.
 */
module LegacyStorage {
  import opened Wrappers
  import opened Strings
  import opened Seqs
  import Store
  import Server
  import Journal
  import LegacyJournal
  import Storage

  const MetaSuffix := ":meta"

  /** getEntryKey */
  function EntryKey(key: string): (r: string)
    ensures r == Journal.StoragePrefix + ReplaceChar(key, NUL, ":")
    ensures NUL !in r
  {
    Storage.FormatEntryKey(key)
  }

  /** getMetaKey: the entry key with `:meta` appended, so the two never coincide. */
  function MetaKey(key: string): (r: string)
    ensures r == EntryKey(key) + MetaSuffix
    ensures r != EntryKey(key)
  {
    assert |Storage.Namespace + ":" + ReplaceChar(key, NUL, ":") + ":" + "meta"| > |EntryKey(key)|;
    Storage.Namespace + ":" + ReplaceChar(key, NUL, ":") + ":" + "meta"
  }

  /** An entry's two keys, both outside the journal namespace. */
  function StoredKeys(key: string): (r: set<string>)
    ensures EntryKey(key) in r && MetaKey(key) in r
    ensures forall x :: x in r ==> Journal.Outside(x)
  {
    assert EntryKey(key)[6] == 'S' && MetaKey(key)[6] == 'S' && Journal.Prefix[6] == 'J';
    {EntryKey(key), MetaKey(key)}
  }

  /** Storing an entry on the journal's own server keeps what the journal recorded for it. */
  lemma SaveOverRecord(a: Store.Db, b: Store.Db, c: Store.Db, key: string, dp: Journal.Deps)
    requires LegacyJournal.Written(b, key, dp) && LegacyJournal.WriteFrame(a, b, key, dp)
    requires Store.SameExcept(b, c, StoredKeys(key))
    ensures LegacyJournal.Written(c, key, dp) && LegacyJournal.OthersKept(a, c, key)
    ensures Store.SameExcept(a, c, StoredKeys(key) + LegacyJournal.WrittenKeys(a, key, dp))
  {
    LegacyJournal.RecordStays(a, b, c, key, dp);
    Store.SameExceptTrans(a, b, c, LegacyJournal.WrittenKeys(a, key, dp), StoredKeys(key));
  }

  /** The entry of key `k + ":meta"` lives where the metadata of `k` does: the two layouts overlap. */
  lemma MetaKeyCollides(key: string)
    ensures EntryKey(key + MetaSuffix) == MetaKey(key)
  {
    ReplaceCharAppend(key, MetaSuffix, NUL, ":");
  }

  /** readMeta over a state: a missing or falsy metadata value reads as nothing. */
  function MetaAt(c: Storage.Codec, db: Store.Db, key: string): (r: Option<Storage.Meta>)
    ensures r.Some? <==> Store.GetStr(db, MetaKey(key)).Some? && !Empty(Store.GetStr(db, MetaKey(key)).value)
    ensures r.Some? ==> r.value == c.decode(Store.GetStr(db, MetaKey(key)).value)
  {
    var v := Store.GetStr(db, MetaKey(key));
    if v.None? || Empty(v.value) then None else Some(c.decode(v.value))
  }

  lemma KeptMeta(c: Storage.Codec, a: Store.Db, b: Store.Db, key: string)
    requires Storage.Kept(a, b) && MetaAt(c, b, key).Some?
    ensures MetaAt(c, a, key) == MetaAt(c, b, key)
  {
    assert Store.At(b, MetaKey(key)).Some?;
  }

  /**
   * The entry with metadata `meta` passes verify in `db`, following dependent items `fuel`
   * levels deep: it has not expired, its callbacks hold, its sliding expiry is not negative
   * (a negative EXPIRE would delete both keys), and every dependent item still has its
   * recorded stamp and, when its metadata exists, passes in turn.
   */
  ghost predicate Passes(c: Storage.Codec, db: Store.Db, meta: Storage.Meta, now: int, fuel: nat)
    decreases fuel, 1
  {
    && !Storage.Expired(meta, now) && Storage.CallbacksHold(c, meta)
    && (meta.delta.Some? ==> meta.delta.value >= 0)
    && forall i :: 0 <= i < |meta.items| ==> ItemPasses(c, db, meta.items[i], now, fuel)
  }

  /** A dependent item with its recorded stamp passes: the stamp is current, the item passes in turn. */
  ghost predicate ItemPasses(c: Storage.Codec, db: Store.Db, item: (string, Option<string>), now: int, fuel: nat)
    decreases fuel, 0
  {
    && !Storage.ItemStale(item.1, MetaAt(c, db, item.0))
    && (MetaAt(c, db, item.0).Some? ==> fuel > 0 && Passes(c, db, MetaAt(c, db, item.0).value, now, fuel - 1))
  }

  /** A dependent item that had no metadata when it was recorded, and still has none, passes. */
  lemma MissingItemPasses(c: Storage.Codec, written: Store.Db, db: Store.Db, name: string, now: int, fuel: nat)
    requires MetaAt(c, written, name).None? && MetaAt(c, db, name).None?
    ensures ItemPasses(c, db, (name, Storage.TimeOf(MetaAt(c, written, name))), now, fuel)
  {
  }

  /**
   * What write stores reads back: metadata and payload stored under their two keys are found,
   * the payload decodes to `data`, and the entry passes verify as long as it has not expired,
   * its callbacks hold and its dependent items pass.
   */
  lemma WriteThenRead(c: Storage.Codec, db: Store.Db, key: string, meta: Storage.Meta, data: Storage.Data, now: int, fuel: nat)
    requires Storage.Sound(c) && meta.serialized == Storage.Payload(c, data).0
    requires Store.GetStr(db, MetaKey(key)) == Some(c.encode(meta))
    requires Store.GetStr(db, EntryKey(key)) == Some(Storage.Payload(c, data).1)
    requires !Storage.Expired(meta, now) && Storage.CallbacksHold(c, meta) && (meta.delta.Some? ==> meta.delta.value >= 0)
    requires forall i :: 0 <= i < |meta.items| ==> ItemPasses(c, db, meta.items[i], now, fuel)
    ensures MetaAt(c, db, key) == Some(meta)
    ensures Passes(c, db, meta, now, fuel)
    ensures Storage.Unserialized(c, Storage.Stored(key, meta, Store.GetStr(db, EntryKey(key)))) == data
  {
    assert !Empty(c.encode(meta));
    Storage.PayloadRoundTrip(c, key, meta, data);
  }

  lemma SameValuesMeta(c: Storage.Codec, a: Store.Db, b: Store.Db, key: string)
    requires Storage.SameValues(a, b)
    ensures MetaAt(c, b, key) == MetaAt(c, a, key)
  {
    assert Store.At(b, MetaKey(key)) == Store.At(a, MetaKey(key));
  }

  /** Whether an entry passes depends on the values of the keys only. */
  lemma {:induction false} SameValuesPasses(c: Storage.Codec, a: Store.Db, b: Store.Db, meta: Storage.Meta, now: int, fuel: nat)
    requires Storage.SameValues(a, b) && Passes(c, a, meta, now, fuel)
    ensures Passes(c, b, meta, now, fuel)
    decreases fuel
  {
    forall i | 0 <= i < |meta.items|
      ensures ItemPasses(c, b, meta.items[i], now, fuel)
    {
      assert ItemPasses(c, a, meta.items[i], now, fuel);
      SameValuesMeta(c, a, b, meta.items[i].0);
      if MetaAt(c, a, meta.items[i].0).Some? {
        SameValuesPasses(c, a, b, MetaAt(c, a, meta.items[i].0).value, now, fuel - 1);
      }
    }
  }

  /** The keyspace after verify's first check: a non-zero sliding expiry is sent as EXPIRE on both keys. */
  function Touched(db: Store.Db, key: string, meta: Storage.Meta, now: int): (r: Store.Db)
    ensures Storage.Kept(db, r)
    ensures meta.delta.Some? && meta.delta.value > 0 ==> Storage.SameValues(db, r)
    ensures !(meta.delta.Some? && meta.delta.value != 0) ==> r == db
  {
    if meta.delta.Some? && meta.delta.value != 0 then
      Store.Expire(Store.Expire(db, EntryKey(key), meta.delta.value, now), MetaKey(key), meta.delta.value, now)
    else db
  }

  /**
   * A run of verify from `db`: whether it succeeds, and the keyspace it leaves. The entry's
   * own checks come first; then the dependent items in order, each read in the keyspace the
   * items before it left; a failure deletes both keys of the entry.
   */
  function VerifyRun(c: Storage.Codec, db: Store.Db, key: string, meta: Storage.Meta, now: int, fuel: nat): (Store.Db, bool)
    decreases fuel, 2
  {
    var touched := Touched(db, key, meta, now);
    var (db', failed) := if Storage.Expired(meta, now) || !Storage.CallbacksHold(c, meta) then (touched, true)
                         else ItemsRun(c, touched, meta.items, now, fuel);
    if failed then (Store.Del(db', [EntryKey(key), MetaKey(key)]), false) else (db', true)
  }

  /** verify's loop over `items` from `db`: the keyspace it leaves and whether some item failed. */
  function ItemsRun(c: Storage.Codec, db: Store.Db, items: seq<(string, Option<string>)>, now: int, fuel: nat): (Store.Db, bool)
    decreases fuel, 1, |items|
  {
    if items == [] then (db, false)
    else
      var (db', failed) := ItemRun(c, db, items[0], now, fuel);
      if failed then (db', true) else ItemsRun(c, db', items[1..], now, fuel)
  }

  /** One dependent item: a changed stamp fails; an item with metadata must verify in turn, with less fuel. */
  function ItemRun(c: Storage.Codec, db: Store.Db, item: (string, Option<string>), now: int, fuel: nat): (Store.Db, bool)
    decreases fuel, 0
  {
    var m := MetaAt(c, db, item.0);
    if Storage.ItemStale(item.1, m) then (db, true)
    else if m.None? then (db, false)
    else if fuel == 0 then (db, true)
    else
      var (db', ok) := VerifyRun(c, db, item.0, m.value, now, fuel - 1);
      (db', !ok)
  }

  /** The keyspace in which verify reads the `i`-th dependent item. */
  function Reached(c: Storage.Codec, db: Store.Db, key: string, meta: Storage.Meta, now: int, fuel: nat, i: nat): Store.Db
    requires i <= |meta.items|
  {
    ItemsRun(c, Touched(db, key, meta, now), meta.items[..i], now, fuel).0
  }

  /**
   * What a successful verify has established: the entry has not expired, its callbacks hold,
   * and every dependent item, read when verify reaches it, has its recorded stamp and, when
   * it has metadata, verifies in turn.
   */
  ghost predicate Verified(c: Storage.Codec, db: Store.Db, key: string, meta: Storage.Meta, now: int, fuel: nat) {
    && !Storage.Expired(meta, now) && Storage.CallbacksHold(c, meta)
    && forall i :: 0 <= i < |meta.items| ==> ItemVerified(c, Reached(c, db, key, meta, now, fuel, i), meta.items[i], now, fuel)
  }

  ghost predicate ItemVerified(c: Storage.Codec, db: Store.Db, item: (string, Option<string>), now: int, fuel: nat) {
    && !Storage.ItemStale(item.1, MetaAt(c, db, item.0))
    && (MetaAt(c, db, item.0).Some? ==> fuel > 0 && VerifyRun(c, db, item.0, MetaAt(c, db, item.0).value, now, fuel - 1).1)
  }

  /** verify's loop gets through `items` exactly when each item gets through in the keyspace the ones before it left. */
  lemma {:induction false} ItemsRunPasses(c: Storage.Codec, db: Store.Db, items: seq<(string, Option<string>)>, now: int, fuel: nat)
    ensures !ItemsRun(c, db, items, now, fuel).1 <==>
              forall i :: 0 <= i < |items| ==> ItemVerified(c, ItemsRun(c, db, items[..i], now, fuel).0, items[i], now, fuel)
    decreases |items|
  {
    if items != [] {
      var (db', failed) := ItemRun(c, db, items[0], now, fuel);
      assert items[..0] == [];
      if !failed {
        ItemsRunPasses(c, db', items[1..], now, fuel);
        forall i | 1 <= i < |items|
          ensures ItemsRun(c, db, items[..i], now, fuel).0 == ItemsRun(c, db', items[1..][..i - 1], now, fuel).0
        {
          assert items[..i][0] == items[0] && items[..i][1..] == items[1..][..i - 1];
        }
        assert forall i :: 1 <= i < |items| ==> items[1..][i - 1] == items[i];
        if !ItemsRun(c, db', items[1..], now, fuel).1 {
          assert forall i :: 0 <= i < |items[1..]| ==>
            ItemVerified(c, ItemsRun(c, db', items[1..][..i], now, fuel).0, items[1..][i], now, fuel);
        } else {
          var j :| 0 <= j < |items[1..]| && !ItemVerified(c, ItemsRun(c, db', items[1..][..j], now, fuel).0, items[1..][j], now, fuel);
          assert !ItemVerified(c, ItemsRun(c, db, items[..j + 1], now, fuel).0, items[j + 1], now, fuel);
        }
      }
    }
  }

  /** verify succeeds exactly when what Verified states holds. */
  lemma VerifyRunPasses(c: Storage.Codec, db: Store.Db, key: string, meta: Storage.Meta, now: int, fuel: nat)
    ensures VerifyRun(c, db, key, meta, now, fuel).1 <==> Verified(c, db, key, meta, now, fuel)
  {
    ItemsRunPasses(c, Touched(db, key, meta, now), meta.items, now, fuel);
  }

  /**
   * A run of read from `db`: null without metadata; otherwise verify runs, and on success the
   * payload key is read in the keyspace verify left and unserialized by the metadata's flag.
   */
  function ReadRun(c: Storage.Codec, db: Store.Db, key: string, now: int, fuel: nat): (r: (Store.Db, Storage.Data))
    ensures MetaAt(c, db, key).None? ==> r == (db, Storage.Null)
  {
    var m := MetaAt(c, db, key);
    if m.None? then (db, Storage.Null)
    else
      var (db', ok) := VerifyRun(c, db, key, m.value, now, fuel);
      (db', if ok then Storage.Unserialized(c, Storage.Stored(key, m.value, Store.GetStr(db', EntryKey(key)))) else Storage.Null)
  }

  /** The dependent items recorded by write: each named item once, with its stamp in `db`. */
  ghost predicate RecordsTimes(c: Storage.Codec, db: Store.Db, names: seq<string>, items: seq<(string, Option<string>)>) {
    && (forall i :: 0 <= i < |items| ==> items[i].0 in names && items[i].1 == Storage.TimeOf(MetaAt(c, db, items[i].0)))
    && (forall k :: 0 <= k < |names| ==> exists i :: 0 <= i < |items| && items[i].0 == names[k])
    && (forall i, j :: 0 <= i < j < |items| ==> items[i].0 != items[j].0)
  }

  lemma RecordOneMore(c: Storage.Codec, db: Store.Db, names: seq<string>, items: seq<(string, Option<string>)>,
                      name: string, next: seq<(string, Option<string>)>)
    requires RecordsTimes(c, db, names, items)
    requires (exists j :: 0 <= j < |items| && items[j].0 == name) ==> next == items
    requires !(exists j :: 0 <= j < |items| && items[j].0 == name) ==> next == items + [(name, Storage.TimeOf(MetaAt(c, db, name)))]
    ensures RecordsTimes(c, db, names + [name], next)
  {
    var seen := names + [name];
    forall k | 0 <= k < |seen|
      ensures exists j :: 0 <= j < |next| && next[j].0 == seen[k]
    {
      if k < |names| {
        assert seen[k] == names[k];
        var j :| 0 <= j < |items| && items[j].0 == names[k];
        assert next[j] == items[j];
      } else if next != items {
        assert next[|items|].0 == name;
      }
    }
  }

  lemma RecordsSlice(c: Storage.Codec, db: Store.Db, names: seq<string>, i: nat, items: seq<(string, Option<string>)>)
    requires i < |names| && RecordsTimes(c, db, names[..i] + [names[i]], items)
    ensures RecordsTimes(c, db, names[..i + 1], items)
  {
    assert names[..i + 1] == names[..i] + [names[i]];
  }

  /** The keys remove deletes for each of `keys`: its entry key and its metadata key. */
  function Removed(keys: set<string>): (r: set<string>)
    ensures forall x :: x in r <==> exists k :: k in keys && (x == EntryKey(k) || x == MetaKey(k))
  {
    (set k | k in keys :: EntryKey(k)) + (set k | k in keys :: MetaKey(k))
  }

  lemma RemovedOutside(keys: set<string>)
    ensures forall x :: x in Removed(keys) ==> Journal.Outside(x)
  {
    forall x | x in Removed(keys)
      ensures Journal.Outside(x)
    {
      var k :| k in keys && (x == EntryKey(k) || x == MetaKey(k));
      assert x in StoredKeys(k);
    }
  }

  /**
   * A conditional clean on a journal that shares the storage's server: what the journal
   * left in its index, and the frame of the whole clean, survive the storage's deletion of
   * the cleaned entries' two keys.
   */
  lemma CleanedThenRemoved(j0: Store.Db, j1: Store.Db, d: Store.Db, found: set<string>)
    requires LegacyJournal.Cleaned(j0, j1, found)
    requires forall x :: x !in Removed(found) ==> Store.At(d, x) == Store.At(j1, x)
    ensures LegacyJournal.IndexCleaned(j0, d, found)
    ensures forall x :: !Journal.Outside(x) && x !in LegacyJournal.CleanKeys(j0, found) ==> Store.At(d, x) == Store.At(j0, x)
    ensures forall x :: Journal.Outside(x) && x !in Removed(found) ==> Store.At(d, x) == Store.At(j0, x)
  {
    RemovedOutside(found);
    LegacyJournal.CleanKeysInside(j0, found);
    LegacyJournal.IndexCleanedStays(j0, j1, d, found);
  }

  /** A conditional clean changes its journal's server only inside the journal namespace. */
  lemma CleanedInside(j0: Store.Db, j1: Store.Db, found: set<string>)
    requires LegacyJournal.Cleaned(j0, j1, found)
    ensures forall x :: Journal.Outside(x) ==> Store.At(j1, x) == Store.At(j0, x)
  {
    LegacyJournal.CleanKeysInside(j0, found);
  }

  /**
   * clean(ALL) hands each full key `Nette.Storage:...` back to remove, which prefixes it
   * once more: only keys that themselves begin with the prefix twice can be hit, so an
   * ordinary entry such as `Nette.Storage:a` is never deleted by it.
   */
  lemma {:induction false} RePrefixedKeys(k: string, x: string)
    requires Journal.StoragePrefix <= k
    requires x == EntryKey(k) || x == MetaKey(k)
    ensures Journal.StoragePrefix + Journal.StoragePrefix <= x
  {
    var p := Journal.StoragePrefix;
    var rest := k[|p|..];
    assert k == p + rest;
    var tail := EntryKeyOfPrefixed(rest);
    assert MetaKey(k) == (p + p) + (tail + MetaSuffix);
  }

  /** The entry key of a key that already carries the storage prefix. */
  lemma EntryKeyOfPrefixed(rest: string) returns (tail: string)
    ensures EntryKey(Journal.StoragePrefix + rest) == (Journal.StoragePrefix + Journal.StoragePrefix) + tail
  {
    var p := Journal.StoragePrefix;
    ReplaceCharAppend(p, rest, NUL, ":");
    PrefixPlain();
    tail := ReplaceChar(rest, NUL, ":");
    assert ReplaceChar(p + rest, NUL, ":") == p + tail;
    assert EntryKey(p + rest) == p + (p + tail);
    AppendAssoc(p, p, tail);
  }

  /** The storage prefix holds no NUL, so the key mangling leaves it as it is. */
  lemma PrefixPlain()
    ensures ReplaceChar(Journal.StoragePrefix, NUL, ":") == Journal.StoragePrefix
  {
    assert NUL !in EntryKey("");
    assert EntryKey("") == Journal.StoragePrefix + [];
  }

  class RedisStorage {
    const client: Server.Redis
    const journal: Option<LegacyJournal.RedisJournal>
    const codec: Storage.Codec

    constructor (client: Server.Redis, journal: Option<LegacyJournal.RedisJournal>, codec: Storage.Codec)
      ensures this.client == client && this.journal == journal && this.codec == codec
    {
      this.client := client;
      this.journal := journal;
      this.codec := codec;
    }

    /** The objects a storage operation may change: the server and the journal's server. */
    function Footprint(): set<object>
      reads this, if journal.Some? then {journal.value} else {}
    {
      {client} + if journal.Some? then {journal.value.client} else {}
    }

    /** readMeta */
    method ReadMeta(key: string) returns (r: Option<Storage.Meta>)
      ensures r == MetaAt(codec, client.db, key)
    {
      var v := client.Get(MetaKey(key));
      if v.None? || Empty(v.value) {
        return None;
      }
      return Some(codec.decode(v.value));
    }

    /** remove: deletes both keys of the entry. */
    method Remove(key: string)
      modifies client
      ensures client.db == Store.Del(old(client.db), [EntryKey(key), MetaKey(key)])
    {
      client.Del([EntryKey(key), MetaKey(key)]);
    }

    /**
     * verify. A sliding expiry refreshes the TTL of both keys, otherwise a past absolute
     * expiry fails; failing callbacks fail; a dependent item whose stamp changed, or which
     * fails its own verification, fails. A failure deletes both keys. `fuel` bounds the depth
     * of dependent items followed; an item that would need more fails.
     */
    method Verify(key: string, meta: Storage.Meta, now: int, fuel: nat) returns (ok: bool)
      modifies client
      ensures Storage.Kept(old(client.db), client.db)
      ensures !ok ==> Store.At(client.db, EntryKey(key)) == None && Store.At(client.db, MetaKey(key)) == None
      ensures ok ==> !Storage.Expired(meta, now) && Storage.CallbacksHold(codec, meta)
      ensures ok ==> forall i :: 0 <= i < |meta.items| && meta.items[i].1.Some? ==>
                Storage.TimeOf(MetaAt(codec, old(client.db), meta.items[i].0)) == meta.items[i].1
      ensures Passes(codec, old(client.db), meta, now, fuel) ==> ok && Storage.SameValues(old(client.db), client.db)
      ensures (client.db, ok) == VerifyRun(codec, old(client.db), key, meta, now, fuel)
      ensures ok ==> Verified(codec, old(client.db), key, meta, now, fuel)
      decreases fuel, 1
    {
      ghost var db0 := client.db;
      var failed := CheckEntry(key, meta, now);
      ghost var run := if failed then (client.db, true) else ItemsRun(codec, client.db, meta.items, now, fuel);
      assert meta.items[0..] == meta.items;
      var i := 0;
      while !failed && i < |meta.items|
        invariant 0 <= i <= |meta.items|
        invariant Storage.Kept(db0, client.db)
        invariant run == if failed then (client.db, true) else ItemsRun(codec, client.db, meta.items[i..], now, fuel)
        invariant !failed ==> forall j :: 0 <= j < i && meta.items[j].1.Some? ==>
                    Storage.TimeOf(MetaAt(codec, db0, meta.items[j].0)) == meta.items[j].1
        invariant Passes(codec, db0, meta, now, fuel) ==> !failed && Storage.SameValues(db0, client.db)
      {
        assert meta.items[i..][0] == meta.items[i] && meta.items[i..][1..] == meta.items[i + 1..];
        failed := VerifyItem(meta.items[i], db0, now, fuel);
        i := i + 1;
      }
      VerifyRunPasses(codec, db0, key, meta, now, fuel);
      if failed {
        ghost var before := client.db;
        Remove(key);
        assert Storage.Kept(before, client.db);
        Storage.KeptTrans(db0, before, client.db);
        return false;
      }
      return true;
    }

    /**
     * The first two checks of verify: a sliding expiry refreshes the TTL of both keys,
     * otherwise a past absolute expiry fails; then the callbacks must hold.
     */
    method CheckEntry(key: string, meta: Storage.Meta, now: int) returns (failed: bool)
      modifies client
      ensures Storage.Kept(old(client.db), client.db)
      ensures !failed <==> !Storage.Expired(meta, now) && Storage.CallbacksHold(codec, meta)
      ensures !failed && (meta.delta.Some? ==> meta.delta.value >= 0) ==> Storage.SameValues(old(client.db), client.db)
      ensures meta.delta.Some? && meta.delta.value > 0 && Store.At(old(client.db), MetaKey(key)).Some? ==>
                Store.Ttl(client.db, MetaKey(key)) == Some(now + meta.delta.value)
      ensures client.db == Touched(old(client.db), key, meta, now)
    {
      failed := false;
      if meta.delta.Some? && meta.delta.value != 0 {
        client.Expire(EntryKey(key), meta.delta.value, now);
        client.Expire(MetaKey(key), meta.delta.value, now);
      } else if meta.expire.Some? && meta.expire.value != 0 && meta.expire.value < now {
        failed := true;
      }
      if !failed && meta.callbacks != [] && !codec.checkCallbacks(meta.callbacks) {
        failed := true;
      }
    }

    /** One dependent item of verify: its stamp must be the recorded one, and it must verify in turn. */
    method VerifyItem(item: (string, Option<string>), ghost db0: Store.Db, now: int, fuel: nat) returns (failed: bool)
      requires Storage.Kept(db0, client.db)
      modifies client
      ensures Storage.Kept(db0, client.db)
      ensures !failed && item.1.Some? ==> Storage.TimeOf(MetaAt(codec, db0, item.0)) == item.1
      ensures ItemPasses(codec, db0, item, now, fuel) && Storage.SameValues(db0, old(client.db)) ==>
                !failed && Storage.SameValues(db0, client.db)
      ensures (client.db, failed) == ItemRun(codec, old(client.db), item, now, fuel)
      decreases fuel, 0
    {
      var m := ReadMeta(item.0);
      if ItemPasses(codec, db0, item, now, fuel) && Storage.SameValues(db0, client.db) {
        SameValuesMeta(codec, db0, client.db, item.0);
      }
      if Storage.ItemStale(item.1, m) {
        return true;
      }
      if m.None? {
        return false;
      }
      KeptMeta(codec, db0, client.db, item.0);
      if fuel == 0 {
        return true;
      }
      ghost var before := client.db;
      if ItemPasses(codec, db0, item, now, fuel) && Storage.SameValues(db0, before) {
        SameValuesPasses(codec, db0, before, m.value, now, fuel - 1);
      }
      var sub := Verify(item.0, m.value, now, fuel - 1);
      Storage.KeptTrans(db0, before, client.db);
      failed := !sub;
    }

    /**
     * read: nothing when there is no metadata; otherwise, once it verifies, the payload
     * key's value (unserialized when flagged). An entry that fails verification loses both
     * keys and reads as nothing.
     */
    method Read(key: string, now: int, fuel: nat) returns (r: Storage.Data)
      modifies client
      ensures Storage.Kept(old(client.db), client.db)
      ensures MetaAt(codec, old(client.db), key).None? ==> r == Storage.Null && client.db == old(client.db)
      ensures var m := MetaAt(codec, old(client.db), key);
        m.Some? ==> ((r == Storage.Unserialized(codec, Storage.Stored(key, m.value, Store.GetStr(client.db, EntryKey(key))))
                      && !Storage.Expired(m.value, now) && Storage.CallbacksHold(codec, m.value))
                     || (r == Storage.Null && Store.At(client.db, EntryKey(key)) == None && Store.At(client.db, MetaKey(key)) == None))
      ensures var m := MetaAt(codec, old(client.db), key);
        m.Some? && Passes(codec, old(client.db), m.value, now, fuel) ==>
          r == Storage.Unserialized(codec, Storage.Stored(key, m.value, Store.GetStr(old(client.db), EntryKey(key))))
          && Storage.SameValues(old(client.db), client.db)
      ensures (client.db, r) == ReadRun(codec, old(client.db), key, now, fuel)
      ensures r != Storage.Null ==> MetaAt(codec, old(client.db), key).Some?
                                    && Verified(codec, old(client.db), key, MetaAt(codec, old(client.db), key).value, now, fuel)
    {
      var meta := ReadMeta(key);
      if meta.None? {
        return Storage.Null;
      }
      var ok := Verify(key, meta.value, now, fuel);
      if !ok {
        return Storage.Null;
      }
      var data := client.Get(EntryKey(key));
      assert Store.GetStr(client.db, EntryKey(key)) == Store.GetStr(old(client.db), EntryKey(key)) || !Passes(codec, old(client.db), meta.value, now, fuel);
      return Storage.Unserialized(codec, Storage.Stored(key, meta.value, data));
    }

    /** lock: does nothing in this storage. */
    method Lock(key: string)
    {
    }

    /** The metadata write builds: the stamp, the expiry and the dependent items' stamps. */
    method BuildMeta(dp: Storage.Dp, now: int, stamp: string) returns (meta: Storage.Meta)
      ensures meta.time == Some(stamp) && !meta.serialized
      ensures (meta.expire, meta.delta) == Storage.Expiration(dp, now)
      ensures RecordsTimes(codec, client.db, dp.items.GetOr([]), meta.items)
      ensures meta.callbacks == dp.callbacks.GetOr([])
    {
      var e := Storage.Expiration(dp, now);
      var names := dp.items.GetOr([]);
      var items: seq<(string, Option<string>)> := [];
      var i := 0;
      while i < |names|
        invariant 0 <= i <= |names|
        invariant RecordsTimes(codec, client.db, names[..i], items)
      {
        var name := names[i];
        var m := ReadMeta(name);
        ghost var previous := items;
        if !exists j :: 0 <= j < |items| && items[j].0 == name {
          items := items + [(name, Storage.TimeOf(m))];
        }
        RecordOneMore(codec, client.db, names[..i], previous, name, items);
        RecordsSlice(codec, client.db, names, i, items);
        i := i + 1;
      }
      assert names[..i] == names;
      meta := Storage.Meta(Some(stamp), false, e.0, e.1, items, dp.callbacks.GetOr([]));
    }

    /**
     * write. Tags or a priority without a journal fail before anything is stored; with one,
     * the journal records them under the raw cache key. The JSON metadata and the payload are
     * then stored under their two keys, both with the expiration as TTL when one is given. A
     * failing store command (`failure`, or Redis refusing a TTL that is not positive) deletes
     * both keys and fails with its message.
     */
    method Write(key: string, data: Storage.Data, dp: Storage.Dp, now: int, stamp: string, failure: Option<string>)
      returns (r: Result<(), Error>, ghost meta: Storage.Meta)
      modifies Footprint()
      ensures (dp.tags != Journal.NoTags || dp.priority.Some?) && journal.None? ==>
                r == Failure(InvalidState("CacheJournal has not been provided.")) && client.db == old(client.db)
      ensures r.Success? <==> failure.None? && Store.Accepts(dp.expiration)
                              && (journal.Some? || (dp.tags == Journal.NoTags && dp.priority.None?))
      ensures r.Success? || failure.Some? || !Store.Accepts(dp.expiration) ==>
                meta.time == Some(stamp) && (meta.expire, meta.delta) == Storage.Expiration(dp, now)
                && RecordsTimes(codec, old(client.db), dp.items.GetOr([]), meta.items)
                && meta.callbacks == dp.callbacks.GetOr([]) && meta.serialized == Storage.Payload(codec, data).0
      ensures r.Success? ==> Store.GetStr(client.db, MetaKey(key)) == Some(codec.encode(meta))
                             && Store.GetStr(client.db, EntryKey(key)) == Some(Storage.Payload(codec, data).1)
      ensures r.Success? ==> var ttl := if dp.expiration.Some? then Some(now + dp.expiration.value) else None;
                Store.Ttl(client.db, MetaKey(key)) == ttl && Store.Ttl(client.db, EntryKey(key)) == ttl
      ensures r.Success? && Storage.Sound(codec) ==>
                MetaAt(codec, client.db, key) == Some(meta)
                && Storage.Unserialized(codec, Storage.Stored(key, meta, Store.GetStr(client.db, EntryKey(key)))) == data
      ensures failure.Some? && (journal.Some? || (dp.tags == Journal.NoTags && dp.priority.None?)) ==>
                r == Failure(InvalidState(failure.value))
                && Store.At(client.db, EntryKey(key)) == None && Store.At(client.db, MetaKey(key)) == None
      ensures failure.None? && !Store.Accepts(dp.expiration) && (journal.Some? || (dp.tags == Journal.NoTags && dp.priority.None?)) ==>
                r == Failure(InvalidState(Store.SetExRefused))
                && Store.At(client.db, EntryKey(key)) == None && Store.At(client.db, MetaKey(key)) == None
      ensures journal.Some? && (dp.tags != Journal.NoTags || dp.priority.Some?) ==>
                LegacyJournal.Written(journal.value.client.db, key, Journal.Deps(dp.tags, dp.priority))
                && LegacyJournal.OthersKept(old(journal.value.client.db), journal.value.client.db, key)
      ensures journal.Some? && journal.value.client == client && (dp.tags != Journal.NoTags || dp.priority.Some?) ==>
                Store.SameExcept(old(client.db), client.db, StoredKeys(key) + LegacyJournal.WrittenKeys(old(client.db), key, Journal.Deps(dp.tags, dp.priority)))
      ensures journal.None? || journal.value.client != client || (dp.tags == Journal.NoTags && dp.priority.None?) ==>
                Store.SameExcept(old(client.db), client.db, StoredKeys(key))
      ensures journal.Some? && journal.value.client != client ==>
                if dp.tags != Journal.NoTags || dp.priority.Some?
                then LegacyJournal.WriteFrame(old(journal.value.client.db), journal.value.client.db, key, Journal.Deps(dp.tags, dp.priority))
                else journal.value.client.db == old(journal.value.client.db)
    {
      var built := BuildMeta(dp, now, stamp);
      var p := Storage.Payload(codec, data);
      var full := built.(serialized := p.0);
      meta := full;
      if dp.tags != Journal.NoTags || dp.priority.Some? {
        if journal.None? {
          return Failure(InvalidState("CacheJournal has not been provided.")), meta;
        }
        Record(key, dp);
      }
      ghost var s1 := client.db;
      r := Save(key, full, data, dp.expiration, now, failure);
      if journal.Some? && journal.value.client == client && (dp.tags != Journal.NoTags || dp.priority.Some?) {
        SaveOverRecord(old(client.db), s1, client.db, key, Journal.Deps(dp.tags, dp.priority));
      } else {
        assert s1 == old(client.db);
      }
    }

    /** The journal's part of write: the dependencies recorded under the raw cache key. */
    method Record(key: string, dp: Storage.Dp)
      requires journal.Some?
      modifies journal.value.client
      ensures LegacyJournal.Written(journal.value.client.db, key, Journal.Deps(dp.tags, dp.priority))
      ensures LegacyJournal.WriteFrame(old(journal.value.client.db), journal.value.client.db, key, Journal.Deps(dp.tags, dp.priority))
    {
      journal.value.Write(key, Journal.Deps(dp.tags, dp.priority));
    }

    /** The end of write: the metadata and payload stored, or both keys deleted when a store command fails. */
    method Save(key: string, meta: Storage.Meta, data: Storage.Data, expiration: Option<int>, now: int, failure: Option<string>)
      returns (r: Result<(), Error>)
      requires meta.serialized == Storage.Payload(codec, data).0
      modifies client
      ensures r.Success? <==> failure.None? && Store.Accepts(expiration)
      ensures failure.Some? ==> r == Failure(InvalidState(failure.value))
      ensures failure.None? && !Store.Accepts(expiration) ==> r == Failure(InvalidState(Store.SetExRefused))
      ensures r.Failure? ==> Store.At(client.db, EntryKey(key)) == None && Store.At(client.db, MetaKey(key)) == None
      ensures r.Success? ==> Store.GetStr(client.db, MetaKey(key)) == Some(codec.encode(meta))
                             && Store.GetStr(client.db, EntryKey(key)) == Some(Storage.Payload(codec, data).1)
      ensures r.Success? ==> var ttl := if expiration.Some? then Some(now + expiration.value) else None;
                Store.Ttl(client.db, MetaKey(key)) == ttl && Store.Ttl(client.db, EntryKey(key)) == ttl
      ensures r.Success? && Storage.Sound(codec) ==>
                MetaAt(codec, client.db, key) == Some(meta)
                && Storage.Unserialized(codec, Storage.Stored(key, meta, Store.GetStr(client.db, EntryKey(key)))) == data
      ensures Store.SameExcept(old(client.db), client.db, StoredKeys(key))
    {
      var encoded := codec.encode(meta);
      if failure.Some? {
        Remove(key);
        return Failure(InvalidState(failure.value));
      }
      var refused := StoreBoth(key, encoded, Storage.Payload(codec, data).1, expiration, now);
      if refused.Some? {
        Remove(key);
        return Failure(InvalidState(refused.value));
      }
      if Storage.Sound(codec) {
        Storage.PayloadRoundTrip(codec, key, meta, data);
      }
      return Success(());
    }

    /**
     * The two stores of write: the metadata and the payload, with the expiration as TTL when
     * one is given. A TTL that is not positive is refused by the first SETEX, which throws
     * before the second is sent.
     */
    method StoreBoth(key: string, encoded: string, payload: string, expiration: Option<int>, now: int)
      returns (refused: Option<string>)
      modifies client
      ensures !Store.Accepts(expiration) ==> refused == Some(Store.SetExRefused) && client.db == old(client.db)
      ensures Store.Accepts(expiration) ==> refused == None
      ensures Store.Accepts(expiration) ==> Store.GetStr(client.db, MetaKey(key)) == Some(encoded) && Store.GetStr(client.db, EntryKey(key)) == Some(payload)
      ensures var ttl := if expiration.Some? then Some(now + expiration.value) else None;
        Store.Accepts(expiration) ==> Store.Ttl(client.db, MetaKey(key)) == ttl && Store.Ttl(client.db, EntryKey(key)) == ttl
      ensures Store.SameExcept(old(client.db), client.db, StoredKeys(key))
    {
      refused := None;
      if expiration.Some? {
        refused := client.SetEx(MetaKey(key), expiration.value, encoded, now);
        if refused.Some? {
          return;
        }
        refused := client.SetEx(EntryKey(key), expiration.value, payload, now);
      } else {
        // MSET of the two keys: both stored, neither keeps a TTL
        client.Set(MetaKey(key), encoded);
        client.Set(EntryKey(key), payload);
      }
    }

    /**
     * clean. With `Cache::ALL` every key under the storage prefix is handed to remove,
     * which prefixes it again, so what is deleted are the re-prefixed keys (see
     * RePrefixedKeys); the journal then wipes its own keys. Otherwise the journal selects
     * and drops the entries and both keys of each are deleted.
     */
    method Clean(conds: Journal.Conds)
      modifies Footprint()
      ensures conds.all ==> forall k :: k in Store.KeysWithPrefix(old(client.db), Journal.StoragePrefix) ==>
                Store.At(client.db, EntryKey(k)) == None && Store.At(client.db, MetaKey(k)) == None
      ensures conds.all ==> forall x :: (x !in Removed(Store.KeysWithPrefix(old(client.db), Journal.StoragePrefix))
                                         && !(Journal.Prefix <= x)) ==> Store.At(client.db, x) == Store.At(old(client.db), x)
      ensures !conds.all && journal.Some? ==>
                forall k :: k in LegacyJournal.Found(old(journal.value.client.db), Journal.TagList(conds.tags), conds.priority) ==>
                  Store.At(client.db, EntryKey(k)) == None && Store.At(client.db, MetaKey(k)) == None
      ensures !conds.all && journal.None? ==> client.db == old(client.db)
      ensures conds.all && journal.Some? ==> forall x :: Journal.Prefix <= x ==> Store.At(journal.value.client.db, x) == None
      ensures conds.all && journal.Some? && journal.value.client != client ==>
                forall x :: Journal.Outside(x) ==> Store.At(journal.value.client.db, x) == Store.At(old(journal.value.client.db), x)
      ensures !conds.all && journal.Some? ==>
                var found := LegacyJournal.Found(old(journal.value.client.db), Journal.TagList(conds.tags), conds.priority);
                && LegacyJournal.IndexCleaned(old(journal.value.client.db), journal.value.client.db, found)
                && (forall x :: !Journal.Outside(x) && x !in LegacyJournal.CleanKeys(old(journal.value.client.db), found) ==>
                      Store.At(journal.value.client.db, x) == Store.At(old(journal.value.client.db), x))
                && (forall x :: Journal.Outside(x) && x !in Removed(found) ==> Store.At(client.db, x) == Store.At(old(client.db), x))
      ensures !conds.all && journal.Some? && journal.value.client != client ==>
                forall x :: Journal.Outside(x) ==> Store.At(journal.value.client.db, x) == Store.At(old(journal.value.client.db), x)
    {
      if conds.all {
        CleanEverything(conds);
      } else if journal.Some? {
        CleanFound(conds);
      }
    }

    /** clean(ALL): the storage keys handed to remove, then the journal wiped. */
    method CleanEverything(conds: Journal.Conds)
      requires conds.all
      modifies Footprint()
      ensures forall k :: k in Store.KeysWithPrefix(old(client.db), Journal.StoragePrefix) ==>
                Store.At(client.db, EntryKey(k)) == None && Store.At(client.db, MetaKey(k)) == None
      ensures forall x :: (x !in Removed(Store.KeysWithPrefix(old(client.db), Journal.StoragePrefix))
                           && !(Journal.Prefix <= x)) ==> Store.At(client.db, x) == Store.At(old(client.db), x)
      ensures journal.Some? ==> forall x :: Journal.Prefix <= x ==> Store.At(journal.value.client.db, x) == None
      ensures journal.Some? && journal.value.client != client ==>
                forall x :: Journal.Outside(x) ==> Store.At(journal.value.client.db, x) == Store.At(old(journal.value.client.db), x)
    {
      var keys := client.Keys(Journal.StoragePrefix);
      RemoveAll(keys);
      if journal.Some? {
        var _ := journal.value.Clean(conds);
      }
    }

    /** A conditional clean: the journal selects and drops the entries, then both keys of each are deleted. */
    method CleanFound(conds: Journal.Conds)
      requires !conds.all && journal.Some?
      modifies Footprint()
      ensures var found := LegacyJournal.Found(old(journal.value.client.db), Journal.TagList(conds.tags), conds.priority);
        && (forall k :: k in found ==> Store.At(client.db, EntryKey(k)) == None && Store.At(client.db, MetaKey(k)) == None)
        && LegacyJournal.IndexCleaned(old(journal.value.client.db), journal.value.client.db, found)
        && (forall x :: !Journal.Outside(x) && x !in LegacyJournal.CleanKeys(old(journal.value.client.db), found) ==>
              Store.At(journal.value.client.db, x) == Store.At(old(journal.value.client.db), x))
        && (forall x :: Journal.Outside(x) && x !in Removed(found) ==> Store.At(client.db, x) == Store.At(old(client.db), x))
      ensures journal.value.client != client ==>
                forall x :: Journal.Outside(x) ==> Store.At(journal.value.client.db, x) == Store.At(old(journal.value.client.db), x)
    {
      ghost var j0 := journal.value.client.db;
      var found := journal.value.Clean(conds);
      ghost var j1 := journal.value.client.db;
      RemoveAll(found.value);
      if journal.value.client == client {
        CleanedThenRemoved(j0, j1, client.db, Elems(found.value));
      } else {
        CleanedInside(j0, j1, Elems(found.value));
      }
    }

    /** The removal loop of clean: both keys of each listed cache key are deleted, nothing else. */
    method RemoveAll(keys: seq<string>)
      modifies client
      ensures forall x :: x in Removed(Elems(keys)) ==> Store.At(client.db, x) == None
      ensures forall x :: x !in Removed(Elems(keys)) ==> Store.At(client.db, x) == Store.At(old(client.db), x)
    {
      var i := 0;
      while i < |keys|
        invariant 0 <= i <= |keys|
        invariant forall x :: x in Removed(Elems(keys[..i])) ==> Store.At(client.db, x) == None
        invariant forall x :: x !in Removed(Elems(keys[..i])) ==> Store.At(client.db, x) == Store.At(old(client.db), x)
      {
        Remove(keys[i]);
        assert keys[..i + 1] == keys[..i] + [keys[i]];
        i := i + 1;
      }
      assert keys[..i] == keys;
    }
  }
}
