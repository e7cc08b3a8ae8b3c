/**
 * The session save handler: a session is read under a lease on its key, and only a session
 * read (hence locked) by this handler may be written or destroyed; closing releases every
 * lease the handler took. The lifetime of stored sessions comes from the session options.
 */
module Session {
  import opened Wrappers
  import opened Strings
  import Store
  import LockSpec
  import Client

  const Namespace := "Nette.Session:"

  const TtlMessage := "PHP settings \"cookie_lifetime\" or \"gc_maxlifetime\" must be greater than 0"

  /** The two options of the bound session that bound the lifetime, in seconds. */
  datatype Options = Options(cookieLifetime: int, gcMaxlifetime: int)

  /** formatKey: the session's key in the keyspace. */
  function FormatKey(id: string): (k: string)
    ensures Namespace <= k && k[|Namespace|..] == id
  {
    Namespace + id
  }

  lemma FormatKeyInjective(a: string, b: string)
    requires FormatKey(a) == FormatKey(b)
    ensures a == b
  {
  }

  /**
   * `min(array_filter([a, b], positive)) ?: 0` under PHP 7: the smaller of the positive
   * values, and 0 when neither is positive.
   */
  function PositiveMin(a: int, b: int): (r: int)
    ensures r >= 0
    ensures r > 0 <==> a > 0 || b > 0
    ensures r > 0 ==> (r == a || r == b) && (a > 0 ==> r <= a) && (b > 0 ==> r <= b)
  {
    if a > 0 && b > 0 then (if a <= b then a else b)
    else if a > 0 then a
    else if b > 0 then b
    else 0
  }

  /**
   * getTtl's answer for a memo, the bound session's options and php.ini's
   * `session.gc_maxlifetime`: a memoised value is answered as it is; otherwise the derived
   * lifetime, which must be positive.
   */
  function TtlOf(memo: Option<int>, session: Option<Options>, ini: int): (r: Result<int, Error>)
    ensures memo.Some? ==> r == Success(memo.value)
    ensures memo.None? && session.Some? ==>
      (r.Success? <==> session.value.cookieLifetime > 0 || session.value.gcMaxlifetime > 0)
    ensures memo.None? && session.Some? && r.Success? ==>
      (session.value.cookieLifetime > 0 ==> r.value <= session.value.cookieLifetime)
      && (session.value.gcMaxlifetime > 0 ==> r.value <= session.value.gcMaxlifetime)
      && (r.value == session.value.cookieLifetime || r.value == session.value.gcMaxlifetime)
    ensures memo.None? && session.None? ==> r == if ini > 0 then Success(ini) else Failure(InvalidArgument(TtlMessage))
    ensures memo.None? && r.Success? ==> r.value > 0
    ensures r.Failure? ==> r == Failure(InvalidArgument(TtlMessage))
  {
    if memo.Some? then Success(memo.value)
    else
      var t := if session.Some? then PositiveMin(session.value.cookieLifetime, session.value.gcMaxlifetime) else ini;
      if t <= 0 then Failure(InvalidArgument(TtlMessage)) else Success(t)
  }

  /** The keys a release of each lease in `done` may write: its `:lock` and `:lock:timeout` keys. */
  function LockFootprint(done: set<string>): set<string> {
    (set k | k in done :: LockSpec.TimeoutKey(k)) + (set k | k in done :: LockSpec.LockKey(k))
  }

  /**
   * Part way through close: every key in `done` has been released starting from `start`.
   * A lease that was held is forgotten, its `:timeout` key deleted and its token handed back
   * if it was still running; nothing outside those keys changed.
   */
  ghost predicate Unlocked(s: LockSpec.State, start: LockSpec.State, done: set<string>, now: int) {
    && s.keys == start.keys - done
    && (forall k :: k in done && k in start.keys ==> Store.At(s.db, LockSpec.TimeoutKey(k)) == None)
    && (forall k :: k in done && k in start.keys ==>
          Store.Items(s.db, LockSpec.LockKey(k))
          == Store.Items(start.db, LockSpec.LockKey(k)) + (if start.keys[k] > now then ["1"] else []))
    && Store.SameExcept(start.db, s.db, LockFootprint(done))
  }

  /** Releasing one more key keeps that description true, whether or not the key was held. */
  lemma UnlockOneMore(s: LockSpec.State, start: LockSpec.State, done: set<string>, now: int, key: string)
    requires Unlocked(s, start, done, now)
    ensures Unlocked(LockSpec.Release(s, key, now).state, start, done + {key}, now)
  {
    var s' := LockSpec.Release(s, key, now).state;
    FootprintGrows(done, key);
    if key in s.keys {
      ReleaseKeepsDone(s, done, now, key);
      Store.SameExceptTrans(start.db, s.db, s'.db, LockFootprint(done), {LockSpec.TimeoutKey(key), LockSpec.LockKey(key)});
      UnlockedHeld(s, s', start, done, now, key);
    } else {
      UnlockedIdle(s, start, done, now, key);
    }
  }

  /** One more release of a key not held (or already released) changes nothing. */
  lemma UnlockedIdle(s: LockSpec.State, start: LockSpec.State, done: set<string>, now: int, key: string)
    requires Unlocked(s, start, done, now) && key !in s.keys
    requires LockFootprint(done) + {LockSpec.TimeoutKey(key), LockSpec.LockKey(key)} == LockFootprint(done + {key})
    ensures Unlocked(s, start, done + {key}, now)
  {
  }

  /** One more release of a held key, given what the release does. */
  lemma UnlockedHeld(s: LockSpec.State, s': LockSpec.State, start: LockSpec.State, done: set<string>, now: int, key: string)
    requires Unlocked(s, start, done, now) && key in s.keys
    requires s'.keys == s.keys - {key} && Store.At(s'.db, LockSpec.TimeoutKey(key)) == None
    requires Store.Items(s'.db, LockSpec.LockKey(key))
             == Store.Items(s.db, LockSpec.LockKey(key)) + (if s.keys[key] > now then ["1"] else [])
    requires forall k :: k in done ==>
      Store.At(s'.db, LockSpec.TimeoutKey(k)) == Store.At(s.db, LockSpec.TimeoutKey(k))
      && Store.Items(s'.db, LockSpec.LockKey(k)) == Store.Items(s.db, LockSpec.LockKey(k))
    requires LockSpec.LockKey(key) !in LockFootprint(done)
    requires Store.SameExcept(start.db, s'.db, LockFootprint(done + {key}))
    ensures Unlocked(s', start, done + {key}, now)
  {
    assert Store.At(s.db, LockSpec.LockKey(key)) == Store.At(start.db, LockSpec.LockKey(key));
  }

  lemma FootprintGrows(done: set<string>, key: string)
    ensures LockFootprint(done) + {LockSpec.TimeoutKey(key), LockSpec.LockKey(key)} == LockFootprint(done + {key})
  {
  }

  /** Releasing a held key leaves the keys of the already released ones, and its own token list is still the start's. */
  lemma ReleaseKeepsDone(s: LockSpec.State, done: set<string>, now: int, key: string)
    requires key in s.keys && key !in done
    ensures forall k :: k in done ==>
      Store.At(LockSpec.Release(s, key, now).state.db, LockSpec.TimeoutKey(k)) == Store.At(s.db, LockSpec.TimeoutKey(k))
      && Store.Items(LockSpec.Release(s, key, now).state.db, LockSpec.LockKey(k)) == Store.Items(s.db, LockSpec.LockKey(k))
    ensures LockSpec.LockKey(key) !in LockFootprint(done)
  {
    forall k | k in done
      ensures Store.At(LockSpec.Release(s, key, now).state.db, LockSpec.TimeoutKey(k)) == Store.At(s.db, LockSpec.TimeoutKey(k))
      ensures Store.Items(LockSpec.Release(s, key, now).state.db, LockSpec.LockKey(k)) == Store.Items(s.db, LockSpec.LockKey(k))
      ensures LockSpec.LockKey(key) != LockSpec.TimeoutKey(k) && LockSpec.LockKey(key) != LockSpec.LockKey(k)
    {
      LockSpec.ReleaseLeavesOthers(s, key, now, k);
      LockSpec.KeysDistinct(k, key);
    }
  }

  /**
   * A session key whose id has no colon is never a lock key of a session, so releasing
   * session leases leaves every such session's data alone.
   */
  lemma {:induction false} SessionOutsideLocks(id: string, done: set<string>)
    requires ':' !in id
    requires forall k :: k in done ==> Namespace <= k
    ensures FormatKey(id) !in LockFootprint(done)
  {
    forall k | k in done
      ensures FormatKey(id) != LockSpec.TimeoutKey(k) && FormatKey(id) != LockSpec.LockKey(k)
    {
      var rest := k[|Namespace|..];
      assert k == Namespace + rest;
      SuffixedIsNotId(id, rest, ":lock:timeout");
      assert LockSpec.TimeoutKey(k) == Namespace + (rest + ":lock:timeout");
      SuffixedIsNotId(id, rest, ":lock");
      assert LockSpec.LockKey(k) == Namespace + (rest + ":lock");
    }
  }

  lemma SuffixedIsNotId(id: string, rest: string, suffix: string)
    requires ':' !in id && |suffix| > 0 && suffix[0] == ':'
    ensures FormatKey(id) != Namespace + (rest + suffix)
  {
    var other := Namespace + (rest + suffix);
    if |id| == |rest| + |suffix| {
      var i := |Namespace| + |rest|;
      assert other[i] == ':';
      assert FormatKey(id)[i] == id[|rest|] != ':';
    } else {
      assert |FormatKey(id)| != |other|;
    }
  }

  /** The lease on a session key writes only lock keys, never the session key itself. */
  lemma {:induction false} LockKeepsSession(c: LockSpec.Config, s: LockSpec.State, id: string, now: int, wait: Store.Wait)
    ensures Store.At(LockSpec.Acquire(c, s, FormatKey(id), now, wait).state.db, FormatKey(id)) == Store.At(s.db, FormatKey(id))
  {
    var k := FormatKey(id);
    LockSpec.AcquireKeepsOthers(c, s, k, now, wait);
    assert |LockSpec.LockKey(k)| > |k| && |LockSpec.TimeoutKey(k)| > |k| && |LockSpec.ControlKey(k)| > |k|;
  }

  class RedisSessionHandler {
    const client: Client.RedisClient
    /** php.ini's `session.gc_maxlifetime`, consulted when no session is bound. */
    const iniGcMaxlifetime: int
    /** Session id -> its key, for every session this handler has locked. */
    var ssIds: map<string, string>
    /** The options of the bound session, if any. */
    var session: Option<Options>
    /** The memoised lifetime, if already known or set. */
    var ttl: Option<int>

    constructor (client: Client.RedisClient, iniGcMaxlifetime: int)
      ensures this.client == client && this.iniGcMaxlifetime == iniGcMaxlifetime
      ensures ssIds == map[] && session == None && ttl == None
      ensures Valid()
    {
      this.client := client;
      this.iniGcMaxlifetime := iniGcMaxlifetime;
      ssIds := map[];
      session := None;
      ttl := None;
    }

    /** Each recorded id maps to its own session key. */
    ghost predicate Valid()
      reads this
    {
      forall id :: id in ssIds ==> ssIds[id] == FormatKey(id)
    }

    /** bind: later lifetimes derive from this session's options. */
    method Bind(options: Options)
      modifies this
      ensures session == Some(options) && ssIds == old(ssIds) && ttl == old(ttl)
    {
      session := Some(options);
    }

    /**
     * getTtl: the memoised lifetime if there is one; otherwise the derived lifetime, which is
     * then remembered, or InvalidArgumentException when it is not positive.
     */
    method GetTtl() returns (r: Result<int, Error>)
      modifies this
      ensures r == TtlOf(old(ttl), session, iniGcMaxlifetime)
      ensures ttl == if r.Success? then Some(r.value) else old(ttl)
      ensures ssIds == old(ssIds) && session == old(session)
    {
      if ttl.Some? {
        return Success(ttl.value);
      }
      var t := if session.Some? then PositiveMin(session.value.cookieLifetime, session.value.gcMaxlifetime)
               else iniGcMaxlifetime;
      if t <= 0 {
        return Failure(InvalidArgument(TtlMessage));
      }
      ttl := Some(t);
      r := Success(t);
    }

    /** setTtl: a negative lifetime is stored as 0; getTtl answers it from then on. */
    method SetTtl(t: int)
      modifies this
      ensures ttl == Some(if t > 0 then t else 0)
      ensures TtlOf(ttl, session, iniGcMaxlifetime) == Success(if t > 0 then t else 0)
      ensures ssIds == old(ssIds) && session == old(session)
    {
      ttl := Some(if t > 0 then t else 0);
    }

    /**
     * lock: takes the lease on the session's key and records the id. A LockException
     * becomes a SessionHandlerException for the id, and nothing is recorded.
     */
    method Lock(id: string, now: int, wait: Store.Wait) returns (r: Result<string, Error>)
      requires client.Valid()
      modifies this, client.lock, client.server
      ensures session == old(session) && ttl == old(ttl)
      ensures client.lock.Settings() == old(client.lock.Settings())
      ensures var o := LockSpec.Acquire(old(client.lock.Settings()), old(client.lock.Current()), FormatKey(id), now, wait);
        && client.lock.Current() == o.state
        && (o.result.Failure? ==> r == Failure(SessionError(id, o.result.error.kind)) && ssIds == old(ssIds))
        && (o.result.Success? ==> r == Success(FormatKey(id)) && ssIds == old(ssIds)[id := FormatKey(id)])
    {
      var key := FormatKey(id);
      var locked := client.Lock(key, now, wait);
      if locked.Failure? {
        return Failure(SessionError(id, locked.error.kind));
      }
      ssIds := ssIds[id := key];
      r := Success(key);
    }

    /**
     * read: locks the session, then answers its stored data, the empty string when there is
     * none; the lease never alters the data read.
     */
    method Read(id: string, now: int, wait: Store.Wait) returns (r: Result<string, Error>)
      requires client.Valid()
      modifies this, client.lock, client.server
      ensures session == old(session) && ttl == old(ttl)
      ensures old(Valid()) ==> Valid()
      ensures var o := LockSpec.Acquire(old(client.lock.Settings()), old(client.lock.Current()), FormatKey(id), now, wait);
        && client.lock.Current() == o.state
        && (o.result.Failure? ==> r == Failure(SessionError(id, o.result.error.kind)) && ssIds == old(ssIds))
        && (o.result.Success? ==> r == Success(Store.GetStr(old(client.server.db), FormatKey(id)).GetOr(""))
                                  && ssIds == old(ssIds)[id := FormatKey(id)])
    {
      LockKeepsSession(client.lock.Settings(), client.lock.Current(), id, now, wait);
      var key := Lock(id, now, wait);
      if key.Failure? {
        return Failure(key.error);
      }
      var v := client.server.Get(key.value);
      r := Success(v.GetOr(""));
    }

    /**
     * write: only a session locked by this handler is stored, under its key, with the
     * lifetime getTtl answers; any other id is refused without touching the keyspace. A
     * lifetime of 0, left by `setTtl(0)`, is refused by Redis and the client error propagates.
     */
    method Write(id: string, data: string, now: int) returns (r: Result<bool, Error>)
      modifies this, client.server
      ensures ssIds == old(ssIds) && session == old(session)
      ensures id !in ssIds ==> r == Success(false) && client.server.db == old(client.server.db) && ttl == old(ttl)
      ensures id in ssIds ==>
        var t := TtlOf(old(ttl), session, iniGcMaxlifetime);
        && (t.Failure? ==> r == Failure(t.error) && client.server.db == old(client.server.db) && ttl == old(ttl))
        && (t.Success? && t.value <= 0 ==>
              r == Failure(ClientError(Store.SetExRefused)) && ttl == Some(t.value) && client.server.db == old(client.server.db))
        && (t.Success? && t.value > 0 ==>
              r == Success(true) && ttl == Some(t.value)
              && Store.GetStr(client.server.db, FormatKey(id)) == Some(data)
              && Store.Ttl(client.server.db, FormatKey(id)) == Some(now + t.value)
              && Store.SameExcept(old(client.server.db), client.server.db, {FormatKey(id)}))
    {
      if id !in ssIds {
        return Success(false);
      }
      var key := FormatKey(id);
      var t := GetTtl();
      if t.Failure? {
        return Failure(t.error);
      }
      var refused := client.server.SetEx(key, t.value, data, now);
      if refused.Some? {
        return Failure(ClientError(refused.value));
      }
      r := Success(true);
    }

    /**
     * destroy: only a session locked by this handler is destroyed: its key is deleted and its
     * lease released, in one transaction. The id stays recorded.
     */
    method Destroy(id: string, now: int) returns (r: bool)
      requires client.Valid()
      modifies client.lock, client.server
      ensures r <==> id in ssIds
      ensures client.lock.Settings() == old(client.lock.Settings())
      ensures !r ==> client.lock.Current() == old(client.lock.Current())
      ensures r ==> client.lock.Current()
                    == LockSpec.Release(LockSpec.State(Store.Del(old(client.server.db), [FormatKey(id)]), old(client.lock.keys)),
                                        FormatKey(id), now).state
      ensures r ==> Store.At(client.server.db, FormatKey(id)) == None && FormatKey(id) !in client.lock.keys
    {
      if id !in ssIds {
        return false;
      }
      var key := FormatKey(id);
      client.server.Del([key]);
      assert Store.At(client.server.db, key) == None;
      client.Unlock(key, now);
      assert |LockSpec.LockKey(key)| > |key| && |LockSpec.TimeoutKey(key)| > |key|;
      r := true;
    }

    /**
     * close: the lease of every recorded session is released and the record emptied. Leases
     * still running hand their token back; the data of the sessions is left alone.
     */
    method Close(now: int) returns (r: bool)
      requires client.Valid()
      modifies this, client.lock, client.server
      ensures r && ssIds == map[] && session == old(session) && ttl == old(ttl)
      ensures client.lock.Settings() == old(client.lock.Settings())
      ensures Unlocked(client.lock.Current(), old(client.lock.Current()), old(ssIds).Values, now)
      ensures old(Valid()) ==> forall id :: ':' !in id ==>
                Store.At(client.server.db, FormatKey(id)) == Store.At(old(client.server.db), FormatKey(id))
    {
      ghost var start := client.lock.Current();
      var pending := ssIds.Keys;
      ghost var done: set<string> := {};
      while pending != {}
        invariant ssIds == old(ssIds) && session == old(session) && ttl == old(ttl)
        invariant pending <= ssIds.Keys
        invariant done <= ssIds.Values
        invariant forall id :: id in ssIds && id !in pending ==> ssIds[id] in done
        invariant client.lock.Settings() == old(client.lock.Settings())
        invariant Unlocked(client.lock.Current(), start, done, now)
        decreases pending
      {
        var id :| id in pending;
        ghost var before := client.lock.Current();
        client.Unlock(ssIds[id], now);
        UnlockOneMore(before, start, done, now, ssIds[id]);
        done := done + {ssIds[id]};
        pending := pending - {id};
      }
      assert done == ssIds.Values;
      if Valid() {
        forall id | ':' !in id
          ensures Store.At(client.server.db, FormatKey(id)) == Store.At(start.db, FormatKey(id))
        {
          SessionOutsideLocks(id, done);
        }
      }
      ssIds := map[];
      r := true;
    }
  }
}
