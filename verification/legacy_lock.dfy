/**
 * The first-generation lock: the lock key holds the deadline of its holder, is taken with
 * SETNX and polled until it is free. A stale deadline is not taken over: the poll gives up
 * with "Deadlock".
 */
module LegacyLock {
  import opened Wrappers
  import opened Strings
  import Store
  import Server

  /**
   * One round of the polling loop: the clock reading `time()` of that round and what the
   * other processes did to the keyspace since the previous round.
   */
  datatype Poll = Poll(now: int, others: Store.Db -> Store.Db)

  datatype Attempt =
    | Acquired   // SETNX stored this process's deadline
    | Deadlocked // the holder's deadline has passed: LockException('Deadlock')
    | Waiting    // still polling when the modelled rounds run out

  /** getTimeout */
  function Expiry(timeout: int, now: int): (t: int)
    ensures t - now == timeout + 1
  {
    now + timeout + 1
  }

  /** formatLock */
  function FormatLock(key: string): string {
    key + ":lock"
  }

  /** The loop condition: keep polling while the stored deadline is unreadable or not yet past. */
  predicate KeepPolling(seen: Option<string>, now: int) {
    seen.None? || Empty(seen.value) || ParseInt(seen.value) >= now
  }

  /**
   * The polling loop of acquireLock, over the rounds `polls`. It writes only when it acquires;
   * on Deadlocked and Waiting the keyspace is as the other processes left it.
   */
  function Polling(db: Store.Db, lockKey: string, timeout: int, polls: seq<Poll>): (r: (Store.Db, Attempt))
    ensures polls == [] ==> r == (db, Waiting)
    decreases |polls|
  {
    if polls == [] then (db, Waiting)
    else
      var seen := polls[0].others(db);
      var nx := Store.SetNx(seen, lockKey, IntToString(Expiry(timeout, polls[0].now)));
      if nx.1 then (nx.0, Acquired)
      else if KeepPolling(Store.GetStr(seen, lockKey), polls[0].now) then Polling(seen, lockKey, timeout, polls[1..])
      else (seen, Deadlocked)
  }

  /** An acquisition stores this process's deadline, computed in one of the rounds. */
  lemma {:induction false} PollingAcquired(db: Store.Db, lockKey: string, timeout: int, polls: seq<Poll>)
    requires Polling(db, lockKey, timeout, polls).1 == Acquired
    ensures exists i ::
      0 <= i < |polls| && Store.GetStr(Polling(db, lockKey, timeout, polls).0, lockKey) == Some(IntToString(Expiry(timeout, polls[i].now)))
    decreases |polls|
  {
    var seen := polls[0].others(db);
    var nx := Store.SetNx(seen, lockKey, IntToString(Expiry(timeout, polls[0].now)));
    if !nx.1 {
      PollingAcquired(seen, lockKey, timeout, polls[1..]);
      var j :| 0 <= j < |polls[1..]| &&
        Store.GetStr(Polling(seen, lockKey, timeout, polls[1..]).0, lockKey) == Some(IntToString(Expiry(timeout, polls[1..][j].now)));
      assert polls[1..][j] == polls[j + 1];
    }
  }

  /** Giving up happens only on a readable deadline that some round's clock has passed. */
  lemma {:induction false} PollingDeadlocked(db: Store.Db, lockKey: string, timeout: int, polls: seq<Poll>)
    requires Polling(db, lockKey, timeout, polls).1 == Deadlocked
    ensures exists i :: 0 <= i < |polls| && !KeepPolling(Store.GetStr(Polling(db, lockKey, timeout, polls).0, lockKey), polls[i].now)
    decreases |polls|
  {
    var seen := polls[0].others(db);
    var nx := Store.SetNx(seen, lockKey, IntToString(Expiry(timeout, polls[0].now)));
    if !nx.1 && KeepPolling(Store.GetStr(seen, lockKey), polls[0].now) {
      PollingDeadlocked(seen, lockKey, timeout, polls[1..]);
      var j :| 0 <= j < |polls[1..]| &&
        !KeepPolling(Store.GetStr(Polling(seen, lockKey, timeout, polls[1..]).0, lockKey), polls[1..][j].now);
      assert polls[1..][j] == polls[j + 1];
    }
  }

  /** One round of the polling loop, from round `i` on. */
  lemma PollingRound(db: Store.Db, lockKey: string, timeout: int, polls: seq<Poll>, i: nat)
    requires i < |polls|
    ensures var seen := polls[i].others(db);
      var nx := Store.SetNx(seen, lockKey, IntToString(Expiry(timeout, polls[i].now)));
      Polling(db, lockKey, timeout, polls[i..]) ==
        if nx.1 then (nx.0, Acquired)
        else if KeepPolling(Store.GetStr(seen, lockKey), polls[i].now) then Polling(seen, lockKey, timeout, polls[i + 1..])
        else (seen, Deadlocked)
  {
    assert polls[i..][1..] == polls[i + 1..];
  }

  /** The lock keys of a set of keys. */
  function LockKeys(ks: set<string>): set<string> {
    set k | k in ks :: FormatLock(k)
  }

  lemma LockKeysAdd(ks: set<string>, k: string)
    ensures LockKeys(ks + {k}) == LockKeys(ks) + {FormatLock(k)}
  {
  }

  /** Rounds in which nobody else touches the keyspace. */
  ghost predicate Quiet(polls: seq<Poll>) {
    forall i :: 0 <= i < |polls| ==> forall d :: polls[i].others(d) == d
  }

  /** A free lock key is taken in the first round. */
  lemma AcquiresFreeKey(db: Store.Db, lockKey: string, timeout: int, polls: seq<Poll>)
    requires polls != [] && lockKey !in polls[0].others(db).data
    ensures Polling(db, lockKey, timeout, polls).1 == Acquired
    ensures Polling(db, lockKey, timeout, polls).0 ==
      Store.Set(polls[0].others(db), lockKey, IntToString(Expiry(timeout, polls[0].now)))
  {
  }

  /** A stale deadline is not taken over: the first round that sees it gives up. */
  lemma StaleDeadlineIsDeadlock(db: Store.Db, lockKey: string, timeout: int, polls: seq<Poll>, deadline: int)
    requires polls != [] && Quiet(polls)
    requires Store.GetStr(db, lockKey) == Some(IntToString(deadline)) && deadline < polls[0].now
    requires deadline != 0
    ensures Polling(db, lockKey, timeout, polls) == (db, Deadlocked)
  {
    assert polls[0].others(db) == db;
    ParseIntOfIntToString(deadline);
    assert IntToString(deadline) != "0" by {
      ParseIntOfIntToString(0);
    }
    assert IntToString(deadline) != "" ;
  }

  /** A live deadline keeps the loop waiting for as long as the rounds stay before it. */
  lemma {:induction false} LiveDeadlineWaits(db: Store.Db, lockKey: string, timeout: int, polls: seq<Poll>, deadline: int)
    requires Quiet(polls) && Store.GetStr(db, lockKey) == Some(IntToString(deadline))
    requires forall i :: 0 <= i < |polls| ==> polls[i].now <= deadline
    ensures Polling(db, lockKey, timeout, polls) == (db, Waiting)
    decreases |polls|
  {
    if polls != [] {
      assert polls[0].others(db) == db;
      ParseIntOfIntToString(deadline);
      assert Quiet(polls[1..]) by {
        forall i | 0 <= i < |polls[1..]| ensures forall d :: polls[1..][i].others(d) == d {
          assert polls[1..][i] == polls[i + 1];
        }
      }
      LiveDeadlineWaits(db, lockKey, timeout, polls[1..], deadline);
    }
  }

  /** Part way through releaseAll: the keys in `done` are released and nothing else changed. */
  ghost predicate Released(db0: Store.Db, db: Store.Db, start: map<string, string>, keys: map<string, string>, done: set<string>) {
    && keys.Keys == start.Keys - done && done <= start.Keys
    && (forall k :: k in done ==> Store.At(db, FormatLock(k)) == None)
    && Store.SameExcept(db0, db, LockKeys(done))
  }

  lemma ReleasedOneMore(db0: Store.Db, db: Store.Db, start: map<string, string>, keys: map<string, string>,
                        done: set<string>, key: string)
    requires Released(db0, db, start, keys, done) && key in keys
    ensures Released(db0, Store.Del(db, [FormatLock(key)]), start, keys - {key}, done + {key})
  {
    var db' := Store.Del(db, [FormatLock(key)]);
    Store.SameExceptTrans(db0, db, db', LockKeys(done), {FormatLock(key)});
    LockKeysAdd(done, key);
    forall k | k in done + {key}
      ensures Store.At(db', FormatLock(k)) == None
    {
      if k != key {
        assert FormatLock(k) != FormatLock(key) by {
          if FormatLock(k) == FormatLock(key) {
            SuffixCancels(k, key, ":lock");
          }
        }
      }
    }
  }

  class ExclusiveLock {
    const client: Server.Redis
    /** key -> its lock key */
    var keys: map<string, string>
    var timeout: int

    constructor (client: Server.Redis)
      ensures this.client == client && keys == map[] && timeout == 15
    {
      this.client := client;
      keys := map[];
      timeout := 15;
    }

    /**
     * acquireLock. A tracked key is acquired with no traffic; otherwise the polling loop runs
     * over the rounds `polls`, and Deadlocked is the LockException('Deadlock').
     */
    method AcquireLock(key: string, polls: seq<Poll>) returns (r: Attempt)
      modifies this, client
      ensures timeout == old(timeout)
      ensures key in old(keys) ==> r == Acquired && keys == old(keys) && client.db == old(client.db)
      ensures key !in old(keys) ==> (client.db, r) == Polling(old(client.db), FormatLock(key), timeout, polls)
      ensures key !in old(keys) ==> keys == if r == Acquired then old(keys)[key := FormatLock(key)] else old(keys)
    {
      if key in keys {
        return Acquired;
      }
      var lockKey := FormatLock(key);
      r := PollLock(lockKey, polls);
      if r == Acquired {
        keys := keys[key := lockKey];
      }
    }

    /** The polling loop of acquireLock: SETNX, else GET and keep polling while the deadline holds. */
    method PollLock(lockKey: string, polls: seq<Poll>) returns (r: Attempt)
      modifies client
      ensures (client.db, r) == Polling(old(client.db), lockKey, timeout, polls)
    {
      var i := 0;
      while i < |polls|
        invariant 0 <= i <= |polls|
        invariant Polling(old(client.db), lockKey, timeout, polls) == Polling(client.db, lockKey, timeout, polls[i..])
        decreases |polls| - i
      {
        PollingRound(client.db, lockKey, timeout, polls, i);
        client.db := polls[i].others(client.db);
        var stored := client.SetNx(lockKey, IntToString(Expiry(timeout, polls[i].now)));
        if stored {
          return Acquired;
        }
        var lockExpiration := client.Get(lockKey);
        if !KeepPolling(lockExpiration, polls[i].now) {
          return Deadlocked;
        }
        i := i + 1;
      }
      r := Waiting;
    }

    /** release: deletes the lock key whether or not this process holds it. */
    method Release(key: string)
      modifies this, client
      ensures timeout == old(timeout)
      ensures keys == old(keys) - {key}
      ensures client.db == Store.Del(old(client.db), [FormatLock(key)])
    {
      client.Del([FormatLock(key)]);
      keys := keys - {key};
    }

    /** updateLockTimeout: overwrites the deadline, with no check of who holds the lock. */
    method UpdateLockTimeout(key: string, now: int)
      modifies client
      ensures client.db == Store.Set(old(client.db), FormatLock(key), IntToString(Expiry(timeout, now)))
    {
      client.Set(FormatLock(key), IntToString(Expiry(timeout, now)));
    }

    /** releaseAll */
    method ReleaseAll()
      modifies this, client
      ensures timeout == old(timeout) && keys == map[]
      ensures forall k :: k in old(keys) ==> Store.At(client.db, FormatLock(k)) == None
      ensures Store.SameExcept(old(client.db), client.db, LockKeys(old(keys).Keys))
    {
      ghost var start := keys;
      ghost var done: set<string> := {};
      while keys != map[]
        invariant timeout == old(timeout)
        invariant Released(old(client.db), client.db, start, keys, done)
        decreases |keys|
      {
        var key :| key in keys;
        ghost var pending := keys;
        ghost var before := client.db;
        Release(key);
        ReleasedOneMore(old(client.db), before, start, pending, done, key);
        done := done + {key};
        assert |keys| < |pending| by {
          assert keys.Keys < pending.Keys;
        }
      }
      assert done == start.Keys;
    }

    /** updateLocksTimeout: every tracked lock key gets the same fresh deadline. */
    method UpdateLocksTimeout(now: int)
      modifies client
      ensures forall k :: k in keys ==> Store.GetStr(client.db, FormatLock(k)) == Some(IntToString(Expiry(timeout, now)))
      ensures Store.SameExcept(old(client.db), client.db, LockKeys(keys.Keys))
    {
      var pending := keys.Keys;
      while pending != {}
        invariant pending <= keys.Keys
        invariant forall k :: k in keys && k !in pending ==>
          Store.GetStr(client.db, FormatLock(k)) == Some(IntToString(Expiry(timeout, now)))
        invariant Store.SameExcept(old(client.db), client.db, set k | k in keys && k !in pending :: FormatLock(k))
        decreases pending
      {
        var key :| key in pending;
        UpdateLockTimeout(key, now);
        pending := pending - {key};
      }
    }
  }
}
