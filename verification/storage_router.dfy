/**
 * The sharded cache storage: each per-key operation first points the storage at the client
 * the pool chooses for the key and then runs the plain storage operation; a clean is run
 * once against every client of the pool, local then remote.
 */
module StorageRouting {
  import opened Wrappers
  import Store
  import LockSpec
  import Client
  import Journal
  import Storage
  import Pool

  class StorageRouter {
    const clients: Pool.ClientsPool
    const journal: Option<Journal.RedisJournal>
    const codec: Storage.Codec
    /** The client the inherited storage code currently talks to; none before the first call. */
    var client: Option<Client.RedisClient>
    var useLocks: bool

    constructor (clients: Pool.ClientsPool, journal: Option<Journal.RedisJournal>, codec: Storage.Codec)
      ensures this.clients == clients && this.journal == journal && this.codec == codec
      ensures client.None? && useLocks
    {
      this.clients := clients;
      this.journal := journal;
      this.codec := codec;
      client := None;
      useLocks := true;
    }

    /** The servers of every client in the pool. */
    function Servers(): set<object> {
      set i | 0 <= i < |clients.All()| :: clients.All()[i].server
    }

    /** The lease locks of every client in the pool. */
    function Locks(): set<object> {
      set i | 0 <= i < |clients.All()| :: clients.All()[i].lock
    }

    function JournalServer(): set<object>
      reads if journal.Some? then {journal.value} else {}
    {
      if journal.Some? then {journal.value.client} else {}
    }

    method DisableLocking()
      modifies this
      ensures !useLocks && client == old(client)
    {
      useLocks := false;
    }

    /** Points the storage at `c`: the storage code then runs with this client and these settings. */
    method Bind(c: Client.RedisClient) returns (s: Storage.RedisStorage)
      modifies this
      ensures fresh(s) && s.client == c && s.journal == journal && s.codec == codec && s.useLocks == useLocks
      ensures client == Some(c) && useLocks == old(useLocks)
    {
      client := Some(c);
      s := new Storage.RedisStorage(c, journal, codec);
      if !useLocks {
        s.DisableLocking();
      }
    }

    /** read, on the key's own shard. */
    method Read(key: string, now: int, fuel: nat) returns (r: Storage.Data)
      requires |clients.local| > 0
      modifies this, clients.Choose(key).server
      ensures client == Some(clients.Choose(key)) && useLocks == old(useLocks)
      ensures var server := clients.Choose(key).server;
        var s := Storage.StoredAt(codec, old(server.db), key);
        && (s.None? ==> r == Storage.Null && server.db == old(server.db))
        && (s.Some? ==> ((r == Storage.Unserialized(codec, s.value) && !Storage.Expired(s.value.meta, now)
                          && Storage.CallbacksHold(codec, s.value.meta))
                         || (r == Storage.Null && Store.At(server.db, Storage.FormatEntryKey(key)) == None)))
        && (s.Some? && Storage.Passes(codec, old(server.db), s.value.meta, now, fuel) ==>
              r == Storage.Unserialized(codec, s.value) && Storage.SameValues(old(server.db), server.db))
        && (s.Some? ==> (server.db, r) == Storage.ReadOneRun(codec, old(server.db), key, s, now, fuel))
        && (r != Storage.Null ==> Storage.ReadVerified(codec, old(server.db), key, s, r, now, fuel))
    {
      var s := Bind(clients.Choose(key));
      r := s.Read(key, now, fuel);
    }

    /** lock, on the key's own shard. */
    method Lock(key: string, now: int, wait: Store.Wait) returns (r: Result<bool, Error>)
      requires |clients.local| > 0 && clients.Valid()
      modifies this, clients.Choose(key).server, clients.Choose(key).lock
      ensures client == Some(clients.Choose(key)) && useLocks == old(useLocks)
      ensures var c := clients.Choose(key);
        && (!useLocks ==> r == Success(true) && c.server.db == old(c.server.db) && c.lock.keys == old(c.lock.keys))
        && (useLocks ==>
              LockSpec.Outcome(c.lock.Current(), r)
              == LockSpec.Acquire(old(c.lock.Settings()), old(c.lock.Current()), Storage.FormatEntryKey(key), now, wait))
    {
      var s := Bind(clients.Choose(key));
      r := s.Lock(key, now, wait);
    }

    /** write, on the key's own shard. */
    method Write(key: string, data: Storage.Data, dp: Storage.Dp, now: int, stamp: string, failure: Option<string>)
      returns (r: Result<(), Error>, ghost meta: Storage.Meta)
      requires |clients.local| > 0 && clients.Valid()
      modifies this, clients.Choose(key).server, clients.Choose(key).lock, JournalServer()
      ensures client == Some(clients.Choose(key)) && useLocks == old(useLocks)
      ensures r.Success? <==> failure.None? && Store.Accepts(dp.expiration)
                              && (journal.Some? || (dp.tags == Journal.NoTags && dp.priority.None?))
      ensures var server := clients.Choose(key).server;
        && (r.Success? ==> Store.GetStr(server.db, Storage.FormatEntryKey(key))
                           == Some(Storage.Envelope(codec, meta, Storage.Payload(codec, data).1)))
        && (r.Success? ==> meta.serialized == Storage.Payload(codec, data).0 && meta.time == Some(stamp)
                           && (meta.expire, meta.delta) == Storage.Expiration(dp, now))
        && (r.Success? ==> Store.Ttl(server.db, Storage.FormatEntryKey(key))
                           == if dp.expiration.Some? then Some(now + dp.expiration.value) else None)
        && ((dp.tags != Journal.NoTags || dp.priority.Some?) && journal.None? ==>
              r == Failure(InvalidState("CacheJournal has not been provided.")) && server.db == old(server.db))
        && (failure.Some? && (journal.Some? || (dp.tags == Journal.NoTags && dp.priority.None?)) ==>
              r == Failure(InvalidState(failure.value)) && Store.At(server.db, Storage.FormatEntryKey(key)) == None)
        && (failure.None? && !Store.Accepts(dp.expiration) && (journal.Some? || (dp.tags == Journal.NoTags && dp.priority.None?)) ==>
              r == Failure(InvalidState(Store.SetExRefused)) && Store.At(server.db, Storage.FormatEntryKey(key)) == None)
      ensures journal.Some? && (dp.tags != Journal.NoTags || dp.priority.Some?) ==>
                Journal.Recorded(old(journal.value.client.db), journal.value.client.db, Storage.FormatEntryKey(key), Journal.Deps(dp.tags, dp.priority))
      ensures var server := clients.Choose(key).server;
        && (forall x :: x !in Storage.WriteKeys(key) && Journal.Outside(x) ==> Store.At(server.db, x) == Store.At(old(server.db), x))
        && (journal.None? || journal.value.client != server || (dp.tags == Journal.NoTags && dp.priority.None?) ==>
              Store.SameExcept(old(server.db), server.db, Storage.WriteKeys(key)))
      ensures journal.Some? && journal.value.client != clients.Choose(key).server ==>
                if dp.tags != Journal.NoTags || dp.priority.Some? then Journal.JournalOnly(old(journal.value.client.db), journal.value.client.db)
                else journal.value.client.db == old(journal.value.client.db)
    {
      var c := clients.Choose(key);
      assert c.Valid() by {
        var k := Pool.ShardIndex(clients.md5(key), |clients.local|);
        assert c == clients.local[k];
      }
      var s := Bind(c);
      assert s.Footprint() == {c.server, c.lock} + JournalServer();
      r, meta := s.Write(key, data, dp, now, stamp, failure);
    }

    /** remove, on the key's own shard. */
    method Remove(key: string)
      requires |clients.local| > 0
      modifies this, clients.Choose(key).server
      ensures client == Some(clients.Choose(key)) && useLocks == old(useLocks)
      ensures clients.Choose(key).server.db == Store.Del(old(clients.Choose(key).server.db), [Storage.FormatEntryKey(key)])
    {
      var s := Bind(clients.Choose(key));
      s.Remove(key);
    }

    /**
     * clean, once per client of the pool in iteration order; the first shard whose clean
     * fails ends the loop with that failure. With `Cache::ALL` no shard left behind has a
     * storage key; without a journal a conditional clean changes nothing.
     */
    method Clean(conds: Journal.Conds) returns (r: Result<(), Error>)
      modifies this, Servers(), Locks(), JournalServer()
      ensures useLocks == old(useLocks)
      ensures r.Failure? ==> conds.all && journal.Some? && r.error == ClientError(Journal.DelWithoutKeys)
      ensures r.Failure? ==> exists i :: 0 <= i < |clients.All()| && client == Some(clients.All()[i])
                                         && forall j :: 0 <= j <= i ==> Storage.NoEntries(clients.All()[j].server.db)
      ensures !conds.all || journal.None? ==> r.Success?
      ensures r.Success? && |clients.All()| > 0 ==> client == Some(clients.All()[|clients.All()| - 1])
      ensures |clients.All()| == 0 ==> client == old(client) && r.Success?
      ensures r.Success? && conds.all ==> forall i :: 0 <= i < |clients.All()| ==> Storage.NoEntries(clients.All()[i].server.db)
      ensures !conds.all && journal.None? ==>
                forall i :: 0 <= i < |clients.All()| ==> clients.All()[i].server.db == old(clients.All()[i].server.db)
    {
      var shards := clients.All();
      var i := 0;
      while i < |shards|
        invariant 0 <= i <= |shards|
        invariant useLocks == old(useLocks)
        invariant i > 0 ==> client == Some(shards[i - 1])
        invariant i == 0 ==> client == old(client)
        invariant conds.all ==> forall j :: 0 <= j < i ==> Storage.NoEntries(shards[j].server.db)
        invariant !conds.all && journal.None? ==> forall j :: 0 <= j < |shards| ==> shards[j].server.db == old(shards[j].server.db)
      {
        var one := CleanShard(shards, i, conds);
        if one.Failure? {
          return one;
        }
        i := i + 1;
      }
      return Success(());
    }

    /**
     * One round of clean: the storage bound to the i-th client cleans. With `Cache::ALL`
     * that shard is left without storage keys and no shard regains any.
     */
    method CleanShard(shards: seq<Client.RedisClient>, i: nat, conds: Journal.Conds) returns (r: Result<(), Error>)
      requires shards == clients.All() && i < |shards|
      modifies this, Servers(), Locks(), JournalServer()
      ensures useLocks == old(useLocks) && client == Some(shards[i])
      ensures r.Failure? <==> conds.all && journal.Some? && Store.KeysWithPrefix(old(journal.value.client.db), Journal.Prefix) == {}
      ensures r.Failure? ==> r.error == ClientError(Journal.DelWithoutKeys)
      ensures conds.all ==> Storage.NoEntries(shards[i].server.db)
      ensures conds.all ==> forall j :: 0 <= j < |shards| && Storage.NoEntries(old(shards[j].server.db)) ==>
                Storage.NoEntries(shards[j].server.db)
      ensures !conds.all && journal.None? ==> forall j :: 0 <= j < |shards| ==> shards[j].server.db == old(shards[j].server.db)
    {
      var s := Bind(shards[i]);
      label before:
      r := s.Clean(conds);
      if conds.all {
        forall j | 0 <= j < |shards| && Storage.NoEntries(old(shards[j].server.db))
          ensures Storage.NoEntries(shards[j].server.db)
        {
          if shards[j].server == shards[i].server {
          } else if journal.Some? && shards[j].server == journal.value.client {
            Storage.KeptNoEntries(old@before(shards[j].server.db), shards[j].server.db);
          }
        }
      }
    }
  }
}
