/**
 * The lease lock of `Kdyby\Redis\ExclusiveLock`, as pure transitions of the pair
 * (keyspace, local map of deadlines). A lock on `k` is a token list at `k:lock`, a control
 * set at `k:lock:control` remembering that the list was initialised, and the current
 * deadline at `k:lock:timeout`.
 */
module LockSpec {
  import opened Wrappers
  import opened Strings
  import Store
  import Seqs

  /** The public `duration` and `acquireTimeout` properties (FALSE is None). */
  datatype Config = Config(duration: int, acquireTimeout: Option<int>)

  /** The keyspace together with the `keys` property: lock key -> local deadline. */
  datatype State = State(db: Store.Db, keys: map<string, int>)

  datatype Outcome = Outcome(state: State, result: Result<bool, Error>)

  const DefaultConfig := Config(15, None)

  function Abs(x: int): nat {
    if x < 0 then -x else x
  }

  /** calculateRelativeTimeout: how long to wait for a token, and how long a lease lasts. */
  function RelativeTimeout(c: Config): (r: nat)
    ensures c.acquireTimeout.Some? && c.acquireTimeout.value > c.duration ==> r == Abs(c.acquireTimeout.value)
    ensures c.acquireTimeout.None? || c.acquireTimeout.value <= c.duration ==> r == Abs(c.duration)
    ensures c.duration >= 0 ==> r >= c.duration && (c.acquireTimeout.Some? ==> r >= c.acquireTimeout.value)
  {
    Abs(if c.acquireTimeout.Some? && c.acquireTimeout.value > c.duration then c.acquireTimeout.value else c.duration)
  }

  /** calculateTimeout: the absolute deadline of a lease taken at `now`; always in the future. */
  function Deadline(c: Config, now: int): (t: int)
    ensures t > now && t - now == RelativeTimeout(c) + 1
  {
    now + RelativeTimeout(c) + 1
  }

  /** formatLock */
  function LockKey(key: string): string {
    key + ":lock"
  }

  function TimeoutKey(key: string): string {
    LockKey(key) + ":timeout"
  }

  function ControlKey(key: string): string {
    LockKey(key) + ":control"
  }

  /** The three keys of one lock are distinct, and no key of one lock is a key of another. */
  lemma KeysDistinct(a: string, b: string)
    ensures TimeoutKey(a) != LockKey(b) && ControlKey(a) != LockKey(b) && ControlKey(a) != TimeoutKey(b)
    ensures LockKey(a) == LockKey(b) ==> a == b
    ensures TimeoutKey(a) == TimeoutKey(b) ==> a == b
    ensures ControlKey(a) == ControlKey(b) ==> a == b
  {
    SuffixesDiffer(a, ":lock:timeout", b, ":lock");
    SuffixesDiffer(a, ":lock:control", b, ":lock");
    SuffixesDiffer(a, ":lock:control", b, ":lock:timeout");
    assert TimeoutKey(a) == a + ":lock:timeout";
    assert TimeoutKey(b) == b + ":lock:timeout";
    assert ControlKey(a) == a + ":lock:control";
    assert ControlKey(b) == b + ":lock:control";
    if LockKey(a) == LockKey(b) {
      SuffixCancels(a, b, ":lock");
    }
    if TimeoutKey(a) == TimeoutKey(b) {
      SuffixCancels(a, b, ":lock:timeout");
    }
    if ControlKey(a) == ControlKey(b) {
      SuffixCancels(a, b, ":lock:control");
    }
  }

  /** Extends the expiry of the `:timeout` and `:control` keys to `t`. */
  function Prolong(db: Store.Db, key: string, t: int, now: int): Store.Db {
    Store.ExpireAt(Store.ExpireAt(db, TimeoutKey(key), t, now), ControlKey(key), t, now)
  }

  /**
   * increaseLockTimeout. A live lease swaps the new deadline into `:timeout`; it is renewed
   * exactly when the value swapped out reads as the local deadline (a missing one reads as
   * 0), and then `:timeout` and `:control` expire at the new deadline. Otherwise the lease
   * was taken over or lost (invalidDuration), and `:timeout` keeps the new value, without TTL.
   */
  function Increase(c: Config, s: State, key: string, now: int): (o: Outcome)
    ensures key !in s.keys ==> o == Outcome(s, Success(false))
    ensures key in s.keys && s.keys[key] <= now ==> o == Outcome(s, Failure(LockError(DurabilityTimedOut)))
    ensures o.result.Success? && key in s.keys ==>
      o.result.value && o.state.keys == s.keys[key := Deadline(c, now)]
    ensures o.result.Failure? ==> o.state.keys == s.keys && o.result.error.LockError?
    ensures key in s.keys && s.keys[key] > now ==>
      && (o.result.Success? <==> ParseIntOpt(Store.GetStr(s.db, TimeoutKey(key))) == s.keys[key])
      && (o.result.Failure? ==> o.result.error == LockError(InvalidDuration) && Store.Ttl(o.state.db, TimeoutKey(key)) == None)
      && Store.GetStr(o.state.db, TimeoutKey(key)) == Some(IntToString(Deadline(c, now)))
      && (o.result.Success? ==> Store.Ttl(o.state.db, TimeoutKey(key)) == Some(Deadline(c, now)))
      && (o.result.Success? ==> Store.At(o.state.db, ControlKey(key)) == Store.At(s.db, ControlKey(key)))
      && (o.result.Success? && Store.At(s.db, ControlKey(key)).Some? ==>
            Store.Ttl(o.state.db, ControlKey(key)) == Some(Deadline(c, now)))
  {
    KeysDistinct(key, key);
    if key !in s.keys then Outcome(s, Success(false))
    else if s.keys[key] <= now then Outcome(s, Failure(LockError(DurabilityTimedOut)))
    else
      var t := Deadline(c, now);
      var swapped := Store.GetSet(s.db, TimeoutKey(key), IntToString(t));
      if ParseIntOpt(swapped.1) != s.keys[key] then
        Outcome(State(swapped.0, s.keys), Failure(LockError(InvalidDuration)))
      else
        Outcome(State(Prolong(swapped.0, key, t, now), s.keys[key := t]), Success(true))
  }

  /** The token list after the control set has been consulted: reset to one token on first use. */
  function Prepare(db: Store.Db, key: string): Store.Db {
    var added := Store.SAdd(db, ControlKey(key), LockKey(key));
    if added.1 > 0 then Store.RPush(Store.Del(added.0, [LockKey(key)]), LockKey(key), "1") else added.0
  }

  /** acquireLock; `wait` is what happens while BLPOP blocks. */
  function Acquire(c: Config, s: State, key: string, now: int, wait: Store.Wait): (o: Outcome)
    ensures o.result.Success? ==> o.result.value || key in s.keys
    ensures o.result.Failure? && key !in s.keys ==> o.result.error == LockError(AcquireTimeout) && o.state.keys == s.keys
    ensures o.result.Failure? ==> o.result.error.LockError?
    ensures key !in s.keys ==>
      (o.result.Success? <==> wait != Store.Failed && (Store.Items(Prepare(s.db, key), LockKey(key)) != [] || wait == Store.Delivered))
    ensures key !in s.keys && o.result.Failure? ==> o.state == State(Prepare(s.db, key), s.keys)
  {
    if key in s.keys then Increase(c, s, key, now)
    else
      var popped := Store.BLPop(Prepare(s.db, key), LockKey(key), wait);
      if popped.1.Failure? || popped.1.value.None? then
        Outcome(State(popped.0, s.keys), Failure(LockError(AcquireTimeout)))
      else
        var t := Deadline(c, now);
        var db := Prolong(Store.Set(popped.0, TimeoutKey(key), IntToString(t)), key, t, now);
        Outcome(State(db, s.keys[key := t]), Success(true))
  }

  /** release */
  function Release(s: State, key: string, now: int): (o: Outcome)
    ensures key !in s.keys ==> o == Outcome(s, Success(false))
    ensures key in s.keys ==> o.result == Success(s.keys[key] > now)
    ensures o.state.keys == s.keys - {key}
    ensures key in s.keys ==> Store.At(o.state.db, TimeoutKey(key)) == None
    ensures key in s.keys ==>
      Store.Items(o.state.db, LockKey(key)) == Store.Items(s.db, LockKey(key)) + (if s.keys[key] > now then ["1"] else [])
    ensures Store.SameExcept(s.db, o.state.db, {TimeoutKey(key), LockKey(key)})
  {
    if key !in s.keys then Outcome(s, Success(false))
    else
      KeysDistinct(key, key);
      var db := Store.Del(s.db, [TimeoutKey(key)]);
      var db' := if s.keys[key] > now then Store.RPush(db, LockKey(key), "1") else db;
      Outcome(State(db', s.keys - {key}), Success(s.keys[key] > now))
  }

  /** Releasing one lease leaves every other lease's keys alone. */
  lemma ReleaseLeavesOthers(s: State, key: string, now: int, other: string)
    requires other != key
    ensures Store.At(Release(s, key, now).state.db, TimeoutKey(other)) == Store.At(s.db, TimeoutKey(other))
    ensures Store.Items(Release(s, key, now).state.db, LockKey(other)) == Store.Items(s.db, LockKey(other))
  {
    KeysDistinct(other, key);
    KeysDistinct(key, other);
  }

  /**
   * Part way through releaseAll: the leases in `done` (taken from `start`) are released, the
   * rest still tracked and untouched.
   */
  ghost predicate Releasing(s: State, start: map<string, int>, done: set<string>, db0: Store.Db, now: int) {
    && s.keys.Keys == start.Keys - done && done <= start.Keys
    && (forall k :: k in s.keys ==> s.keys[k] == start[k])
    && (forall k :: k in done ==> Store.At(s.db, TimeoutKey(k)) == None)
    && (forall k :: k in done ==>
          Store.Items(s.db, LockKey(k)) == Store.Items(db0, LockKey(k)) + (if start[k] > now then ["1"] else []))
    && (forall k :: k in s.keys ==> Store.Items(s.db, LockKey(k)) == Store.Items(db0, LockKey(k)))
    && Store.SameExcept(db0, s.db, ReleaseKeys(done))
  }

  lemma ReleasingStart(s: State, now: int)
    ensures Releasing(s, s.keys, {}, s.db, now)
  {
    assert ReleaseKeys({}) == {};
  }

  lemma ReleasedAll(s: State, start: map<string, int>, done: set<string>, db0: Store.Db, now: int)
    requires Releasing(s, start, done, db0, now) && s.keys == map[]
    ensures forall k :: k in start ==> Store.At(s.db, TimeoutKey(k)) == None
    ensures forall k :: k in start ==>
      Store.Items(s.db, LockKey(k)) == Store.Items(db0, LockKey(k)) + (if start[k] > now then ["1"] else [])
    ensures Store.SameExcept(db0, s.db, ReleaseKeys(start.Keys))
  {
    assert done == start.Keys;
  }

  /** The token lists and `:timeout` keys of the leases on `ks`. */
  function ReleaseKeys(ks: set<string>): set<string> {
    (set k | k in ks :: TimeoutKey(k)) + (set k | k in ks :: LockKey(k))
  }

  lemma ReleaseKeysAdd(done: set<string>, key: string)
    ensures ReleaseKeys(done + {key}) == ReleaseKeys(done) + {TimeoutKey(key), LockKey(key)}
  {
    var a := set k | k in done + {key} :: TimeoutKey(k);
    var b := set k | k in done + {key} :: LockKey(k);
    assert a == (set k | k in done :: TimeoutKey(k)) + {TimeoutKey(key)};
    assert b == (set k | k in done :: LockKey(k)) + {LockKey(key)};
  }

  /** Releasing one more tracked lease keeps that description true. */
  lemma ReleaseOneMore(s: State, start: map<string, int>, done: set<string>, db0: Store.Db, now: int, key: string)
    requires Releasing(s, start, done, db0, now) && key in s.keys
    ensures Releasing(Release(s, key, now).state, start, done + {key}, db0, now)
  {
    var s' := Release(s, key, now).state;
    forall k | k != key
      ensures Store.At(s'.db, TimeoutKey(k)) == Store.At(s.db, TimeoutKey(k))
      ensures Store.Items(s'.db, LockKey(k)) == Store.Items(s.db, LockKey(k))
    {
      ReleaseLeavesOthers(s, key, now, k);
    }
    ReleasingStep(s, s', start, done, db0, now, key);
  }

  lemma ReleasingStep(s: State, s': State, start: map<string, int>, done: set<string>, db0: Store.Db, now: int, key: string)
    requires Releasing(s, start, done, db0, now) && key in s.keys
    requires s'.keys == s.keys - {key} && Store.At(s'.db, TimeoutKey(key)) == None
    requires Store.Items(s'.db, LockKey(key)) == Store.Items(s.db, LockKey(key)) + (if s.keys[key] > now then ["1"] else [])
    requires forall k :: k != key ==> Store.At(s'.db, TimeoutKey(k)) == Store.At(s.db, TimeoutKey(k))
    requires forall k :: k != key ==> Store.Items(s'.db, LockKey(k)) == Store.Items(s.db, LockKey(k))
    requires Store.SameExcept(s.db, s'.db, {TimeoutKey(key), LockKey(key)})
    ensures Releasing(s', start, done + {key}, db0, now)
  {
    Store.SameExceptTrans(db0, s.db, s'.db, ReleaseKeys(done), {TimeoutKey(key), LockKey(key)});
    ReleaseKeysAdd(done, key);
    assert key !in done;
    forall k | k in done + {key}
      ensures Store.At(s'.db, TimeoutKey(k)) == None
      ensures Store.Items(s'.db, LockKey(k)) == Store.Items(db0, LockKey(k)) + (if start[k] > now then ["1"] else [])
    {
      if k != key {
        assert k in done;
      }
    }
    forall k | k in s'.keys
      ensures s'.keys[k] == start[k] && Store.Items(s'.db, LockKey(k)) == Store.Items(db0, LockKey(k))
    {
      assert k in s.keys && k != key;
    }
  }

  /** getLockTimeout: positive exactly while a tracked lease still runs. */
  function LockTimeout(keys: map<string, int>, key: string, now: int): (r: int)
    ensures key !in keys ==> r == 0
    ensures r > 0 <==> key in keys && keys[key] > now
    ensures key in keys ==> now + r == keys[key]
  {
    if key in keys then keys[key] - now else 0
  }

  // ---------------------------------------------------------------------------------
  // Properties

  /** Acquiring a tracked key only renews it: neither the token list nor the control set changes. */
  lemma AcquireTrackedRenews(c: Config, s: State, key: string, now: int, wait: Store.Wait)
    requires key in s.keys
    ensures Acquire(c, s, key, now, wait) == Increase(c, s, key, now)
    ensures Store.Items(Acquire(c, s, key, now, wait).state.db, LockKey(key)) == Store.Items(s.db, LockKey(key))
    ensures Store.Members(Acquire(c, s, key, now, wait).state.db, ControlKey(key)) == Store.Members(s.db, ControlKey(key))
  {
    KeysDistinct(key, key);
    var o := Increase(c, s, key, now);
    if s.keys[key] > now {
      var t := Deadline(c, now);
      var swapped := Store.GetSet(s.db, TimeoutKey(key), IntToString(t));
      assert Store.At(swapped.0, LockKey(key)) == Store.At(s.db, LockKey(key));
      assert Store.At(swapped.0, ControlKey(key)) == Store.At(s.db, ControlKey(key));
      var db1 := Store.ExpireAt(swapped.0, TimeoutKey(key), t, now);
      assert Store.At(db1, LockKey(key)) == Store.At(s.db, LockKey(key));
      assert Store.At(db1, ControlKey(key)) == Store.At(s.db, ControlKey(key));
      var db2 := Store.ExpireAt(db1, ControlKey(key), t, now);
      assert Store.At(db2, LockKey(key)) == Store.At(s.db, LockKey(key));
      assert Store.At(db2, ControlKey(key)) == Store.At(s.db, ControlKey(key));
    }
  }

  /** Acquiring (or renewing) a lease writes only the three keys of that lock. */
  lemma AcquireKeepsOthers(c: Config, s: State, key: string, now: int, wait: Store.Wait)
    ensures Store.SameExcept(s.db, Acquire(c, s, key, now, wait).state.db, {LockKey(key), TimeoutKey(key), ControlKey(key)})
  {
    if key in s.keys {
      IncreaseKeepsOthers(c, s, key, now);
    } else {
      WaitKeepsOthers(c, s, key, now, wait);
    }
  }

  lemma IncreaseKeepsOthers(c: Config, s: State, key: string, now: int)
    ensures Store.SameExcept(s.db, Increase(c, s, key, now).state.db, {TimeoutKey(key), ControlKey(key)})
  {
    if key in s.keys && s.keys[key] > now {
      var t := Deadline(c, now);
      var db0 := Store.GetSet(s.db, TimeoutKey(key), IntToString(t)).0;
      ProlongKeeps(db0, key, t, now);
      Store.SameExceptTrans(s.db, db0, Prolong(db0, key, t, now), {TimeoutKey(key)}, {TimeoutKey(key), ControlKey(key)});
    }
  }

  /** What renewing a lease answers depends only on its local deadline and its `:timeout` value. */
  lemma IncreaseDepends(c: Config, s1: State, s2: State, key: string, now: int)
    requires key in s1.keys <==> key in s2.keys
    requires key in s1.keys ==> s1.keys[key] == s2.keys[key]
    requires Store.GetStr(s1.db, TimeoutKey(key)) == Store.GetStr(s2.db, TimeoutKey(key))
    ensures Increase(c, s1, key, now).result == Increase(c, s2, key, now).result
  {
  }

  /** The `:timeout` and `:control` keys of the leases on `ks`. */
  function LeaseKeys(ks: set<string>): set<string> {
    (set k | k in ks :: TimeoutKey(k)) + (set k | k in ks :: ControlKey(k))
  }

  /** The lease on `k` was renewed at `now` from `s0`: that renewal succeeds, and `s` shows its effect. */
  ghost predicate Renewed(c: Config, s0: State, s: State, k: string, now: int) {
    && k in s.keys
    && Increase(c, s0, k, now).result.Success?
    && s.keys[k] == Deadline(c, now)
    && Store.GetStr(s.db, TimeoutKey(k)) == Some(IntToString(Deadline(c, now)))
    && Store.Ttl(s.db, TimeoutKey(k)) == Some(Deadline(c, now))
  }

  /**
   * One more round of increaseLocksTimeout: renewing a lease not yet renewed answers what
   * renewing it from the start would, and leaves the leases renewed before alone.
   */
  lemma RenewOneMore(c: Config, s0: State, before: State, after: State, key: string, done: set<string>, now: int,
                     r: Result<bool, Error>)
    requires before.keys.Keys == s0.keys.Keys && done <= s0.keys.Keys && key in s0.keys && key !in done
    requires before.keys[key] == s0.keys[key]
    requires Store.SameExcept(s0.db, before.db, LeaseKeys(done))
    requires forall k :: k in done ==> Renewed(c, s0, before, k, now)
    requires Outcome(after, r) == Increase(c, before, key, now)
    ensures r == Increase(c, s0, key, now).result
    ensures after.keys.Keys == s0.keys.Keys
    ensures forall k :: k in after.keys && k != key ==> after.keys[k] == before.keys[k]
    ensures Store.SameExcept(s0.db, after.db, LeaseKeys(done + {key}))
    ensures forall k :: k in done ==> Renewed(c, s0, after, k, now)
    ensures r.Success? ==> Renewed(c, s0, after, key, now)
  {
    LeaseKeysApart(key, done);
    IncreaseDepends(c, before, s0, key, now);
    IncreaseKeepsOthers(c, before, key, now);
    Store.SameExceptTrans(s0.db, before.db, after.db, LeaseKeys(done), {TimeoutKey(key), ControlKey(key)});
    LeaseKeysAdd(done, key);
    RenewKeepsDone(c, s0, before, after, key, done, now);
  }

  lemma RenewKeepsDone(c: Config, s0: State, before: State, after: State, key: string, done: set<string>, now: int)
    requires key !in done && forall k :: k in done ==> Renewed(c, s0, before, k, now)
    requires Store.SameExcept(before.db, after.db, {TimeoutKey(key), ControlKey(key)})
    requires after.keys.Keys == before.keys.Keys
    requires forall k :: k in after.keys && k != key ==> after.keys[k] == before.keys[k]
    ensures forall k :: k in done ==> Renewed(c, s0, after, k, now)
  {
    LeaseKeysApart(key, done);
  }

  lemma LeaseKeysAdd(done: set<string>, key: string)
    ensures LeaseKeys(done + {key}) == LeaseKeys(done) + {TimeoutKey(key), ControlKey(key)}
  {
    var a := set k | k in done + {key} :: TimeoutKey(k);
    var b := set k | k in done + {key} :: ControlKey(k);
    assert a == (set k | k in done :: TimeoutKey(k)) + {TimeoutKey(key)};
    assert b == (set k | k in done :: ControlKey(k)) + {ControlKey(key)};
  }

  lemma LeaseKeysWider(a: Store.Db, b: Store.Db, ks: set<string>, ls: set<string>)
    requires Store.SameExcept(a, b, LeaseKeys(ks)) && ks <= ls
    ensures Store.SameExcept(a, b, LeaseKeys(ls))
  {
    assert LeaseKeys(ks) <= LeaseKeys(ls);
  }

  /** A lease's `:timeout` is none of the lease keys of other locks, and theirs avoid its own. */
  lemma LeaseKeysApart(key: string, done: set<string>)
    requires key !in done
    ensures TimeoutKey(key) !in LeaseKeys(done)
    ensures forall k :: k in done ==> TimeoutKey(k) != TimeoutKey(key) && TimeoutKey(k) != ControlKey(key)
  {
    forall k | k in done
      ensures TimeoutKey(key) != TimeoutKey(k) && TimeoutKey(key) != ControlKey(k)
      ensures TimeoutKey(k) != ControlKey(key)
    {
      KeysDistinct(key, k);
      KeysDistinct(k, key);
    }
  }

  lemma WaitKeepsOthers(c: Config, s: State, key: string, now: int, wait: Store.Wait)
    requires key !in s.keys
    ensures Store.SameExcept(s.db, Acquire(c, s, key, now, wait).state.db, {LockKey(key), TimeoutKey(key), ControlKey(key)})
  {
    var own := {LockKey(key), TimeoutKey(key), ControlKey(key)};
    PrepareKeeps(s.db, key);
    var popped := Store.BLPop(Prepare(s.db, key), LockKey(key), wait);
    Store.SameExceptTrans(s.db, Prepare(s.db, key), popped.0, own, {LockKey(key)});
    if popped.1.Success? && popped.1.value.Some? {
      var t := Deadline(c, now);
      var db2 := Store.Set(popped.0, TimeoutKey(key), IntToString(t));
      Store.SameExceptTrans(s.db, popped.0, db2, own, {TimeoutKey(key)});
      ProlongKeeps(db2, key, t, now);
      Store.SameExceptTrans(s.db, db2, Prolong(db2, key, t, now), own, {TimeoutKey(key), ControlKey(key)});
    }
  }

  lemma ProlongKeeps(db: Store.Db, key: string, t: int, now: int)
    ensures Store.SameExcept(db, Prolong(db, key, t, now), {TimeoutKey(key), ControlKey(key)})
  {
    var db1 := Store.ExpireAt(db, TimeoutKey(key), t, now);
    Store.SameExceptTrans(db, db1, Store.ExpireAt(db1, ControlKey(key), t, now), {TimeoutKey(key)}, {ControlKey(key)});
  }

  lemma PrepareKeeps(db: Store.Db, key: string)
    ensures Store.SameExcept(db, Prepare(db, key), {LockKey(key), TimeoutKey(key), ControlKey(key)})
  {
    var added := Store.SAdd(db, ControlKey(key), LockKey(key));
    var db1 := Store.Del(added.0, [LockKey(key)]);
    Store.SameExceptTrans(db, added.0, db1, {ControlKey(key)}, Seqs.Elems([LockKey(key)]));
    Store.SameExceptTrans(db, db1, Store.RPush(db1, LockKey(key), "1"), {ControlKey(key)} + Seqs.Elems([LockKey(key)]), {LockKey(key)});
  }

  /** A lock used for the first time is reset to exactly one token before the wait. */
  lemma PrepareFresh(db: Store.Db, key: string)
    requires LockKey(key) !in Store.Members(db, ControlKey(key))
    ensures Store.Items(Prepare(db, key), LockKey(key)) == ["1"]
    ensures LockKey(key) in Store.Members(Prepare(db, key), ControlKey(key))
  {
    KeysDistinct(key, key);
    var added := Store.SAdd(db, ControlKey(key), LockKey(key));
    var db1 := Store.Del(added.0, [LockKey(key)]);
    assert Store.Items(db1, LockKey(key)) == [];
    assert Store.Members(db1, ControlKey(key)) == Store.Members(added.0, ControlKey(key));
  }

  /** Hence the first acquisition of a lock never waits, and leaves the token list empty. */
  lemma AcquireFresh(c: Config, s: State, key: string, now: int, wait: Store.Wait)
    requires key !in s.keys && LockKey(key) !in Store.Members(s.db, ControlKey(key)) && wait != Store.Failed
    ensures Acquire(c, s, key, now, wait).result == Success(true)
    ensures Store.Items(Acquire(c, s, key, now, wait).state.db, LockKey(key)) == []
  {
    PrepareFresh(s.db, key);
    var popped := Store.BLPop(Prepare(s.db, key), LockKey(key), wait);
    PopLastToken(Prepare(s.db, key), LockKey(key), wait);
    LeaseKeepsList(popped.0, key, Deadline(c, now), now);
  }

  /** BLPOP on a list of one token takes it and leaves the list empty. */
  lemma PopLastToken(db: Store.Db, k: string, wait: Store.Wait)
    requires Store.Items(db, k) == ["1"] && wait != Store.Failed
    ensures Store.BLPop(db, k, wait).1 == Success(Some("1"))
    ensures Store.Items(Store.BLPop(db, k, wait).0, k) == []
  {
  }

  /** Recording a lease's deadline leaves its token list alone. */
  lemma LeaseKeepsList(db: Store.Db, key: string, t: int, now: int)
    ensures Store.Items(Prolong(Store.Set(db, TimeoutKey(key), IntToString(t)), key, t, now), LockKey(key))
            == Store.Items(db, LockKey(key))
  {
    KeysDistinct(key, key);
    var db1 := Store.Set(db, TimeoutKey(key), IntToString(t));
    var db2 := Store.ExpireAt(db1, TimeoutKey(key), t, now);
    assert Store.At(db1, LockKey(key)) == Store.At(db, LockKey(key));
    assert Store.At(db2, LockKey(key)) == Store.At(db1, LockKey(key));
    assert Store.At(Store.ExpireAt(db2, ControlKey(key), t, now), LockKey(key)) == Store.At(db2, LockKey(key));
  }

  /** A client error while waiting also ends as an acquire timeout (highConcurrency is never thrown). */
  lemma AcquireClientError(c: Config, s: State, key: string, now: int)
    requires key !in s.keys
    ensures Acquire(c, s, key, now, Store.Failed).result == Failure(LockError(AcquireTimeout))
    ensures Acquire(c, s, key, now, Store.Failed).state == State(Prepare(s.db, key), s.keys)
  {
  }

  /** A successful acquisition records the deadline locally and in `:timeout`, which expires then. */
  lemma AcquireRecordsDeadline(c: Config, s: State, key: string, now: int, wait: Store.Wait)
    requires key !in s.keys && Acquire(c, s, key, now, wait).result.Success?
    ensures Acquire(c, s, key, now, wait).state.keys == s.keys[key := Deadline(c, now)]
    ensures Store.GetStr(Acquire(c, s, key, now, wait).state.db, TimeoutKey(key)) == Some(IntToString(Deadline(c, now)))
    ensures Store.Ttl(Acquire(c, s, key, now, wait).state.db, TimeoutKey(key)) == Some(Deadline(c, now))
  {
    KeysDistinct(key, key);
    var popped := Store.BLPop(Prepare(s.db, key), LockKey(key), wait);
    var t := Deadline(c, now);
    var db1 := Store.Set(popped.0, TimeoutKey(key), IntToString(t));
    var db2 := Store.ExpireAt(db1, TimeoutKey(key), t, now);
    assert Store.GetStr(db2, TimeoutKey(key)) == Some(IntToString(t));
  }

  /** A successful acquisition also makes `:control` expire at the deadline. */
  lemma AcquireExpiresControl(c: Config, s: State, key: string, now: int, wait: Store.Wait)
    requires key !in s.keys && Acquire(c, s, key, now, wait).result.Success?
    ensures Store.Ttl(Acquire(c, s, key, now, wait).state.db, ControlKey(key)) == Some(Deadline(c, now))
  {
    KeysDistinct(key, key);
    var prepared := Prepare(s.db, key);
    var popped := Store.BLPop(prepared, LockKey(key), wait);
    var t := Deadline(c, now);
    var db1 := Store.Set(popped.0, TimeoutKey(key), IntToString(t));
    var db2 := Store.ExpireAt(db1, TimeoutKey(key), t, now);
    assert LockKey(key) in Store.Members(prepared, ControlKey(key));
    assert Store.At(db2, ControlKey(key)) == Store.At(prepared, ControlKey(key));
  }

  /**
   * A holder that dies without releasing blocks the lock only until its deadline: `:control`
   * expires then, so once the server has dropped expired keys, any process that does not
   * hold the lock takes it afresh, as on first use.
   */
  lemma CrashedLeaseLapses(c: Config, s: State, key: string, now: int, wait: Store.Wait,
                           c': Config, keys': map<string, int>, later: int, wait': Store.Wait)
    requires key !in s.keys && Acquire(c, s, key, now, wait).result.Success?
    requires later >= Deadline(c, now) && key !in keys' && wait' != Store.Failed
    ensures var lapsed := State(Store.Evict(Acquire(c, s, key, now, wait).state.db, later), keys');
      Acquire(c', lapsed, key, later, wait').result == Success(true)
  {
    AcquireExpiresControl(c, s, key, now, wait);
    var lapsed := State(Store.Evict(Acquire(c, s, key, now, wait).state.db, later), keys');
    assert Store.At(lapsed.db, ControlKey(key)) == None;
    AcquireFresh(c', lapsed, key, later, wait');
  }

  /**
   * Without interference, a lease taken at `now` can be renewed at any `later` before its
   * deadline: the stored deadline parses back to the local one.
   */
  lemma {:induction false} AcquireThenRenew(c: Config, s: State, key: string, now: int, later: int, wait: Store.Wait)
    requires key !in s.keys && Acquire(c, s, key, now, wait).result.Success?
    requires later < Deadline(c, now)
    ensures Increase(c, Acquire(c, s, key, now, wait).state, key, later).result == Success(true)
    ensures Increase(c, Acquire(c, s, key, now, wait).state, key, later).state.keys[key] == Deadline(c, later)
  {
    var s1 := Acquire(c, s, key, now, wait).state;
    AcquireRecordsDeadline(c, s, key, now, wait);
    var swapped := Store.GetSet(s1.db, TimeoutKey(key), IntToString(Deadline(c, later)));
    assert swapped.1 == Some(IntToString(Deadline(c, now)));
    ParseIntOfIntToString(Deadline(c, now));
  }

  /** Releasing a lease before its deadline hands the token back for the next process. */
  lemma AcquireThenRelease(c: Config, s: State, key: string, now: int, later: int, wait: Store.Wait)
    requires key !in s.keys && LockKey(key) !in Store.Members(s.db, ControlKey(key)) && wait != Store.Failed
    requires later < Deadline(c, now)
    ensures var o := Release(Acquire(c, s, key, now, wait).state, key, later);
      o.result == Success(true) && Store.Items(o.state.db, LockKey(key)) == ["1"] && o.state.keys == s.keys
  {
    var s1 := Acquire(c, s, key, now, wait).state;
    AcquireFresh(c, s, key, now, wait);
    AcquireRecordsDeadline(c, s, key, now, wait);
    ReleaseTracked(s1, key, later, s.keys);
  }

  lemma ReleaseTracked(s1: State, key: string, later: int, rest: map<string, int>)
    requires key in s1.keys && s1.keys[key] > later && Store.Items(s1.db, LockKey(key)) == []
    requires key !in rest && s1.keys == rest[key := s1.keys[key]]
    ensures var o := Release(s1, key, later);
      o.result == Success(true) && Store.Items(o.state.db, LockKey(key)) == ["1"] && o.state.keys == rest
  {
    var o := Release(s1, key, later);
    assert Store.Items(o.state.db, LockKey(key)) == [] + ["1"];
    assert o.state.keys == rest;
  }
}

/** The `ExclusiveLock` object: its `keys` map, its settings and the connection it locks through. */
module Locks {
  import opened Wrappers
  import opened Strings
  import Store
  import Server
  import opened LockSpec

  class ExclusiveLock {
    const client: Server.Redis
    var keys: map<string, int>
    var duration: int
    var acquireTimeout: Option<int>

    constructor (client: Server.Redis)
      ensures this.client == client && keys == map[] && Settings() == DefaultConfig
    {
      this.client := client;
      keys := map[];
      duration := 15;
      acquireTimeout := None;
    }

    function Settings(): Config
      reads this
    {
      Config(duration, acquireTimeout)
    }

    function Current(): State
      reads this, client
    {
      State(client.db, keys)
    }

    method IncreaseLockTimeout(key: string, now: int) returns (r: Result<bool, Error>)
      modifies this, client
      ensures Settings() == old(Settings())
      ensures Outcome(Current(), r) == Increase(old(Settings()), old(Current()), key, now)
    {
      if key !in keys {
        return Success(false);
      }
      if keys[key] <= now {
        return Failure(LockError(DurabilityTimedOut));
      }
      var lockKey := LockKey(key);
      var timeout := Deadline(Settings(), now);
      var oldTimeout := client.GetSet(lockKey + ":timeout", IntToString(timeout));
      if ParseIntOpt(oldTimeout) != keys[key] {
        return Failure(LockError(InvalidDuration));
      }
      client.ExpireAt(lockKey + ":timeout", timeout, now);
      client.ExpireAt(lockKey + ":control", timeout, now);
      keys := keys[key := timeout];
      r := Success(true);
    }

    method AcquireLock(key: string, now: int, wait: Store.Wait) returns (r: Result<bool, Error>)
      modifies this, client
      ensures Settings() == old(Settings())
      ensures Outcome(Current(), r) == Acquire(old(Settings()), old(Current()), key, now, wait)
    {
      if key in keys {
        r := IncreaseLockTimeout(key, now);
        return;
      }
      var lockKey := LockKey(key);
      var added := client.SAdd(lockKey + ":control", lockKey);
      if added > 0 {
        client.Del([lockKey]);
        client.RPush(lockKey, "1");
      }
      var result := client.BLPop(lockKey, wait);
      if result.Failure? || result.value.None? {
        return Failure(LockError(AcquireTimeout));
      }
      var timeout := Deadline(Settings(), now);
      client.Set(lockKey + ":timeout", IntToString(timeout));
      client.ExpireAt(lockKey + ":timeout", timeout, now);
      client.ExpireAt(lockKey + ":control", timeout, now);
      keys := keys[key := timeout];
      r := Success(true);
    }

    method Release(key: string, now: int) returns (released: bool)
      modifies this, client
      ensures Settings() == old(Settings())
      ensures Outcome(Current(), Success(released)) == LockSpec.Release(old(Current()), key, now)
    {
      if key !in keys {
        return false;
      }
      var timeout := keys[key];
      var lockKey := LockKey(key);
      client.Del([lockKey + ":timeout"]);
      if timeout > now {
        client.RPush(lockKey, "1");
      }
      keys := keys - {key};
      released := timeout > now;
    }

    /**
     * releaseAll: every tracked lease is released, in any order, and none stays tracked; a
     * lease still running hands its token back. Only the leases' token lists and `:timeout`
     * keys change.
     */
    method ReleaseAll(now: int)
      modifies this, client
      ensures Settings() == old(Settings()) && keys == map[]
      ensures forall k :: k in old(keys) ==> Store.At(client.db, TimeoutKey(k)) == None
      ensures forall k :: k in old(keys) ==>
        Store.Items(client.db, LockKey(k)) == Store.Items(old(client.db), LockKey(k)) + (if old(keys)[k] > now then ["1"] else [])
      ensures Store.SameExcept(old(client.db), client.db, ReleaseKeys(old(keys).Keys))
    {
      ghost var start := keys;
      ghost var db0 := client.db;
      ghost var done: set<string> := {};
      ReleasingStart(Current(), now);
      while keys != map[]
        invariant Settings() == old(Settings())
        invariant Releasing(Current(), start, done, db0, now)
        decreases |keys|
      {
        ghost var key := ReleaseNext(start, done, db0, now);
        done := done + {key};
      }
      ReleasedAll(Current(), start, done, db0, now);
    }

    /** One round of releaseAll: some tracked lease is released. */
    method ReleaseNext(ghost start: map<string, int>, ghost done: set<string>, ghost db0: Store.Db, now: int)
      returns (ghost key: string)
      requires keys != map[] && Releasing(Current(), start, done, db0, now)
      modifies this, client
      ensures Settings() == old(Settings()) && |keys| < |old(keys)|
      ensures Releasing(Current(), start, done + {key}, db0, now)
    {
      var k :| k in keys;
      key := k;
      ghost var before := Current();
      var _ := Release(k, now);
      ReleaseOneMore(before, start, done, db0, now, k);
      assert keys.Keys < before.keys.Keys;
    }

    /**
     * increaseLocksTimeout: renews every tracked lease, stopping at the first error. It
     * succeeds exactly when renewing each lease on its own would, and then every lease runs
     * to the new deadline, locally and in its `:timeout`; a failure is the error renewing
     * some lease on its own raises. Only the leases' `:timeout` and `:control` keys change.
     */
    method IncreaseLocksTimeout(now: int) returns (r: Result<bool, Error>)
      modifies this, client
      ensures Settings() == old(Settings())
      ensures keys.Keys == old(keys).Keys
      ensures r.Success? <==> forall k :: k in old(keys) ==> Increase(Settings(), old(Current()), k, now).result.Success?
      ensures r.Failure? ==> exists k :: k in old(keys) && Increase(Settings(), old(Current()), k, now).result == r
      ensures r.Success? ==> forall k :: k in old(keys) ==> Renewed(Settings(), old(Current()), Current(), k, now)
      ensures Store.SameExcept(old(client.db), client.db, LeaseKeys(old(keys).Keys))
    {
      ghost var s0 := Current();
      var pending := keys.Keys;
      ghost var done: set<string> := {};
      while pending != {}
        invariant Settings() == old(Settings())
        invariant keys.Keys == s0.keys.Keys && done == s0.keys.Keys - pending && pending <= s0.keys.Keys
        invariant Store.SameExcept(s0.db, client.db, LeaseKeys(done))
        invariant forall k :: k in pending ==> keys[k] == s0.keys[k]
        invariant forall k :: k in done ==> Renewed(Settings(), s0, Current(), k, now)
        decreases pending
      {
        var key :| key in pending;
        var renewed := RenewNext(s0, key, done, now);
        if renewed.Failure? {
          LeaseKeysWider(s0.db, client.db, done + {key}, s0.keys.Keys);
          return renewed;
        }
        pending := pending - {key};
        done := done + {key};
      }
      assert done == s0.keys.Keys;
      LeaseKeysWider(s0.db, client.db, done, s0.keys.Keys);
      r := Success(true);
    }

    /** One round of increaseLocksTimeout, on a lease not renewed yet. */
    method RenewNext(ghost s0: State, key: string, ghost done: set<string>, now: int) returns (r: Result<bool, Error>)
      requires keys.Keys == s0.keys.Keys && done <= s0.keys.Keys && key in s0.keys && key !in done
      requires keys[key] == s0.keys[key]
      requires Store.SameExcept(s0.db, client.db, LeaseKeys(done))
      requires forall k :: k in done ==> Renewed(Settings(), s0, Current(), k, now)
      modifies this, client
      ensures Settings() == old(Settings())
      ensures r == Increase(Settings(), s0, key, now).result
      ensures keys.Keys == s0.keys.Keys
      ensures forall k :: k in keys && k != key ==> keys[k] == old(keys)[k]
      ensures Store.SameExcept(s0.db, client.db, LeaseKeys(done + {key}))
      ensures forall k :: k in done ==> Renewed(Settings(), s0, Current(), k, now)
      ensures r.Success? ==> Renewed(Settings(), s0, Current(), key, now)
    {
      ghost var before := Current();
      r := IncreaseLockTimeout(key, now);
      RenewOneMore(Settings(), s0, before, Current(), key, done, now, r);
    }

    method GetLockTimeout(key: string, now: int) returns (r: int)
      ensures r == LockTimeout(keys, key, now)
    {
      r := if key in keys then keys[key] - now else 0;
    }
  }
}
