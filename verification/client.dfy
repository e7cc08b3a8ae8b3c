/**
 * The connection object the storages and the session handler talk through: the server it is
 * connected to and the lease lock it creates on itself. The transport underneath
 * (`IRedisDriver`) is not part of this model.
 */
module Client {
  import opened Wrappers
  import Store
  import Server
  import LockSpec
  import Locks

  class RedisClient {
    const server: Server.Redis
    const lock: Locks.ExclusiveLock

    /** The lock locks through this very connection. */
    predicate Valid() {
      lock.client == server
    }

    constructor (server: Server.Redis)
      ensures this.server == server && Valid() && fresh(lock)
      ensures lock.keys == map[] && lock.Settings() == LockSpec.DefaultConfig
    {
      this.server := server;
      lock := new Locks.ExclusiveLock(server);
    }

    /** setupLockDuration: the lease duration becomes |timeout|. */
    method SetupLockDuration(timeout: int)
      modifies lock
      ensures lock.Settings() == old(lock.Settings()).(duration := LockSpec.Abs(timeout))
      ensures lock.keys == old(lock.keys)
    {
      lock.duration := LockSpec.Abs(timeout);
    }

    /** lock: acquires the lease on `key` through this connection. */
    method Lock(key: string, now: int, wait: Store.Wait) returns (r: Result<bool, Error>)
      requires Valid()
      modifies lock, server
      ensures lock.Settings() == old(lock.Settings())
      ensures LockSpec.Outcome(lock.Current(), r) == LockSpec.Acquire(old(lock.Settings()), old(lock.Current()), key, now, wait)
    {
      r := lock.AcquireLock(key, now, wait);
    }

    /** unlock */
    method Unlock(key: string, now: int)
      requires Valid()
      modifies lock, server
      ensures lock.Settings() == old(lock.Settings())
      ensures lock.Current() == LockSpec.Release(old(lock.Current()), key, now).state
    {
      var _ := lock.Release(key, now);
    }

    /**
     * close, on a connected client: every lease taken through this connection is released,
     * and a lease still running hands its token back to the next process. Nothing but the
     * leases' token lists and `:timeout` keys changes.
     */
    method Close(now: int)
      requires Valid()
      modifies lock, server
      ensures lock.keys == map[] && lock.Settings() == old(lock.Settings())
      ensures forall k :: k in old(lock.keys) ==> Store.At(server.db, LockSpec.TimeoutKey(k)) == None
      ensures forall k :: k in old(lock.keys) ==>
        Store.Items(server.db, LockSpec.LockKey(k))
        == Store.Items(old(server.db), LockSpec.LockKey(k)) + (if old(lock.keys)[k] > now then ["1"] else [])
      ensures Store.SameExcept(old(server.db), server.db, LockSpec.ReleaseKeys(old(lock.keys).Keys))
    {
      lock.ReleaseAll(now);
    }
  }
}
