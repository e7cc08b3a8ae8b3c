# Kdyby/Redis client-side core, modelled in Dafny

This project models the coordination logic of the Kdyby/Redis cache layer for Nette, and
proves properties of that model. The Redis server is an abstract keyspace. Each key holds a
string, a set, a sorted set or a list, and may have an absolute expiry. Every command the
layer uses (`SET`, `SETNX`, `SETEX`, `GETSET`, `SADD`, `SREM`, `ZADD`, `ZRANGEBYSCORE`,
`DEL`, `RPUSH`, `LREM`, `BLPOP`, `KEYS`, `EXPIREAT`, …) is a pure transition of that state
(`Store`). A `Server.Redis` object holds the state, and its methods apply those transitions
in place. The transitions follow Redis on keys of the type each command expects. Type
errors (`WRONGTYPE`) are not modelled: see "## Left out". The clock `time()` is an integer parameter `now`. Redis's expiry of keys whose
deadline has passed is a separate step, `Server.Redis.Tick`, which applies `Store.Evict`;
`SETEX` with a TTL that is not positive is refused with Redis's error reply.

The modules follow the program's classes:

- `LockSpec` and `Locks`: the lease lock `Kdyby\Redis\ExclusiveLock`. It keeps a token list
  `k:lock`, a control set `k:lock:control` and a deadline key `k:lock:timeout`, plus a local
  map from key to deadline. `LockSpec` states the transitions as functions, and the
  `Locks.ExclusiveLock` class runs them on its `keys` field.
- `LegacyLock`: the first-generation lock, a `SETNX` polling loop on `k:lock`.
- `Client`: the connection object with the lease lock it creates on itself.
- `Journal`: the set-based invalidation journal `Kdyby\Redis\RedisJournal`. It keeps the
  tag→keys and key→tags indices and a priority sorted set, and cleans in batches of 8000.
- `LegacyJournal`: the list-based journal.
- `LuaJournal`: the PHP side of the script journal. This covers key escaping and the
  unescaping of results, the filtering of dependencies, the checks on a script's result and
  the memoisation of script texts.
- `Storage`: the cache storage `Kdyby\Redis\RedisStorage`. It stores `json(meta) NUL data`
  under `Nette.Storage:key`, builds the expiration metadata, verifies dependent items
  recursively and evicts lazily.
- `LegacyStorage`: the two-key storage, with the entry and its `:meta` key.
- `Pool`, `StorageRouting`, `JournalRouting`, `Connections`: shard selection by md5 digit sum,
  per-key routing, fan-out of clean to every shard, and the host:port connection registry.
- `Session`: the session handler, which only writes or destroys ids it has locked.
- `Resp`: the first-generation socket client. It covers request framing, reply parsing over
  an in-memory input, the bounded retry of `send`, `info`, `multi` and `exec`.
- `Strings`, `Seqs`, `Wrappers`: string helpers (decimal conversion, case folding), sequence
  helpers, and the `Option`, `Result` and error datatypes. The errors are the exception
  classes of the library.

The md5 digest, JSON, `serialize`, the cache's validity callbacks and `microtime()` are
uninterpreted. They are function-valued fields or parameters. Where the proofs need a
property of one, that property is stated as a predicate the callers must supply. Examples
are the JSON round trip and NUL-free JSON output.

## Model

| member | source | states |
|---|---|---|
| LockSpec.RelativeTimeout | src/Kdyby/Redis/ExclusiveLock.php:223-226 | The wait and lease length is the absolute value of acquireTimeout when it is set and exceeds duration, otherwise that of duration. With a non-negative duration it is never below either setting. |
| LockSpec.Deadline | src/Kdyby/Redis/ExclusiveLock.php:76-79 | A lease taken at `now` ends strictly in the future, exactly relative timeout + 1 seconds later. |
| LockSpec.KeysDistinct | src/Kdyby/Redis/ExclusiveLock.php:216-219 | The `:lock`, `:lock:timeout` and `:lock:control` keys of one lock never coincide with keys of any lock. Each of the three is injective in the cache key. |
| LockSpec.Increase | src/Kdyby/Redis/ExclusiveLock.php:147-169 | increaseLockTimeout. An untracked key gives FALSE and changes nothing. A lease at or past its deadline fails with durabilityTimedOut and changes nothing. For a live lease the renewal succeeds exactly when the `:timeout` value it swaps out reads as the local deadline. Either way `:timeout` then holds the new deadline. On success the local deadline, `:timeout` and `:control` (when present) all move to the new deadline, and the control set is kept. Otherwise the failure is invalidDuration, the local map is kept and `:timeout` has no TTL. |
| LockSpec.Acquire | src/Kdyby/Redis/ExclusiveLock.php:90-117 | acquireLock. Success is TRUE for a new lease, or the renewal result for a tracked key. An untracked key is acquired exactly when BLPOP does not fail and either the prepared token list is not empty or another process delivers a token. Otherwise the empty `blPop` answer ends as acquireTimeout (highConcurrency is built but not thrown), the keyspace is the prepared one and the local map is unchanged. Every failure is a lock error. |
| LockSpec.Release | src/Kdyby/Redis/ExclusiveLock.php:124-139 | An untracked key gives FALSE and changes nothing. A tracked key is forgotten and its `:timeout` deleted. A token is pushed back exactly when the lease was still live, which is also the result. Nothing outside the `:timeout` key and the token list changes. |
| LockSpec.ReleaseLeavesOthers | src/Kdyby/Redis/ExclusiveLock.php:124-139 | Releasing one lease leaves the deadline key and token list of every other lease untouched. |
| LockSpec.ReleaseOneMore | src/Kdyby/Redis/ExclusiveLock.php:176-181 | Each release in releaseAll's loop adds the key to the released ones. It keeps every released lease's final state and leaves the untouched ones as they were. |
| LockSpec.LockTimeout | src/Kdyby/Redis/ExclusiveLock.php:201-208 | getLockTimeout is 0 for an untracked key. It is positive exactly while a tracked lease is live, and otherwise is the deadline minus now. |
| LockSpec.AcquireTrackedRenews | src/Kdyby/Redis/ExclusiveLock.php:92-94 | Acquiring a tracked key is exactly increaseLockTimeout. It touches neither the token list nor the control set. |
| LockSpec.AcquireKeepsOthers | src/Kdyby/Redis/ExclusiveLock.php:90-117 | Acquiring or renewing a lease writes only the three keys of that lock. |
| LockSpec.IncreaseKeepsOthers | src/Kdyby/Redis/ExclusiveLock.php:147-169 | Renewing writes only the `:timeout` and `:control` keys of that lock. |
| LockSpec.IncreaseDepends | src/Kdyby/Redis/ExclusiveLock.php:147-169 | Whether a renewal succeeds depends only on the local deadline and the value of `:timeout`. |
| LockSpec.RenewOneMore | src/Kdyby/Redis/ExclusiveLock.php:188-193 | Each round of increaseLocksTimeout answers what renewing that lease on its own from the start would answer. Leases renewed earlier stay renewed, and only the `:timeout` and `:control` keys of renewed leases differ from the start. |
| LockSpec.WaitKeepsOthers | src/Kdyby/Redis/ExclusiveLock.php:96-116 | A new acquisition (reset, wait, record) writes only the three keys of that lock. |
| LockSpec.PrepareFresh | src/Kdyby/Redis/ExclusiveLock.php:96-100 | When the control set does not yet hold the lock key, the token list is reset to exactly one token and the control set records the lock. |
| LockSpec.AcquireFresh | src/Kdyby/Redis/ExclusiveLock.php:96-116 | The first acquisition of a lock takes that single token without waiting, succeeds, and leaves the token list empty. |
| LockSpec.AcquireClientError | src/Kdyby/Redis/ExclusiveLock.php:101-108 | A client error while waiting in BLPOP ends as acquireTimeout, because highConcurrency() is built but not thrown. Only the token-list preparation remains. |
| LockSpec.AcquireRecordsDeadline | src/Kdyby/Redis/ExclusiveLock.php:110-116 | A successful new acquisition records the deadline in the local map and stores it in `:timeout`. That key expires at the same deadline. |
| LockSpec.AcquireExpiresControl | src/Kdyby/Redis/ExclusiveLock.php:110-113 | A successful new acquisition also makes the `:control` set expire at the deadline. |
| LockSpec.CrashedLeaseLapses | src/Kdyby/Redis/ExclusiveLock.php:96-116 | A holder that never releases blocks the lock only until its deadline. Once the server has dropped the keys expired by then, any process that does not hold the lock acquires it afresh, with its own settings. |
| LockSpec.AcquireThenRenew | src/Kdyby/Redis/ExclusiveLock.php:147-169 | Without interference, a fresh lease can be renewed at any time before its deadline. The stored deadline parses back to the local one, so the renewal succeeds and sets the new deadline. |
| LockSpec.AcquireThenRelease | src/Kdyby/Redis/ExclusiveLock.php:124-139 | Releasing a first lease before its deadline returns TRUE and leaves exactly one token for the next process. The local map is restored. |
| Locks.ExclusiveLock.constructor | src/Kdyby/Redis/ExclusiveLock.php:29-59 | A new lock tracks no lease, with duration 15 and acquireTimeout FALSE. |
| Locks.ExclusiveLock.IncreaseLockTimeout | src/Kdyby/Redis/ExclusiveLock.php:147-169 | The new keyspace, local map and result are LockSpec.Increase of the old ones, so the renewal succeeds exactly when the swapped-out `:timeout` reads as the local deadline, and otherwise fails with invalidDuration. The settings are unchanged. |
| Locks.ExclusiveLock.AcquireLock | src/Kdyby/Redis/ExclusiveLock.php:90-117 | The new keyspace, local map and result are LockSpec.Acquire of the old ones, given the outcome of the blocking wait. |
| Locks.ExclusiveLock.Release | src/Kdyby/Redis/ExclusiveLock.php:124-139 | The new keyspace, local map and result are LockSpec.Release of the old ones. |
| Locks.ExclusiveLock.ReleaseAll | src/Kdyby/Redis/ExclusiveLock.php:176-181 | Afterwards no lease is tracked. Every formerly tracked lease has its `:timeout` deleted, and gets a token back exactly when it was still live. No key outside those leases' `:timeout` keys and token lists changes. |
| Locks.ExclusiveLock.IncreaseLocksTimeout | src/Kdyby/Redis/ExclusiveLock.php:188-193 | The set of tracked keys is unchanged. The result is success exactly when renewing each lease on its own would succeed, and then every lease is renewed locally and in its `:timeout` with that key's TTL. A failure is the error that renewing some lease on its own raises. Only the leases' `:timeout` and `:control` keys change. |
| Locks.ExclusiveLock.GetLockTimeout | src/Kdyby/Redis/ExclusiveLock.php:201-208 | The result is LockSpec.LockTimeout of the local map. |
| LegacyLock.Expiry | ExclusiveLock.php:55-58 | The stored deadline is the timeout + 1 seconds after now. |
| LegacyLock.Polling | ExclusiveLock.php:75-85 | The polling loop over a finite sequence of rounds. SETNX takes a free key with the round's deadline. Otherwise it polls again while the stored value is empty or not yet past, and gives up with Deadlock on a value that is past. It writes only when it acquires. Running out of rounds yields Waiting. |
| LegacyLock.PollingAcquired | ExclusiveLock.php:76-80 | An acquisition stores this process's own deadline, computed in one of the rounds. |
| LegacyLock.PollingDeadlocked | ExclusiveLock.php:82-85 | The loop gives up only on a readable deadline that some round's clock has passed. |
| LegacyLock.AcquiresFreeKey | ExclusiveLock.php:76-80 | A lock key that is free in the first round is taken in that round, with that round's deadline. |
| LegacyLock.StaleDeadlineIsDeadlock | ExclusiveLock.php:82-85 | A stale (non-zero) deadline is not taken over. When nobody else acts, the first round throws Deadlock and changes nothing. |
| LegacyLock.LiveDeadlineWaits | ExclusiveLock.php:83 | When nobody else acts, a live deadline keeps the loop polling for as long as the rounds stay at or before it. |
| LegacyLock.ExclusiveLock.constructor | ExclusiveLock.php:45-48 | A new lock tracks no key, with timeout 15. |
| LegacyLock.ExclusiveLock.AcquireLock | ExclusiveLock.php:69-104 | A tracked key is acquired with no store traffic. Otherwise the keyspace and the result are those of the polling loop, and the key's lock key is recorded exactly when it is acquired. |
| LegacyLock.ExclusiveLock.PollLock | ExclusiveLock.php:76-85 | The loop method computes exactly LegacyLock.Polling. |
| LegacyLock.ExclusiveLock.Release | ExclusiveLock.php:111-115 | The lock key is deleted unconditionally, even when another process holds it, and the key is forgotten. |
| LegacyLock.ExclusiveLock.UpdateLockTimeout | ExclusiveLock.php:122-125 | The lock key is overwritten with a fresh deadline, with no check of ownership. |
| LegacyLock.ExclusiveLock.ReleaseAll | ExclusiveLock.php:132-137 | No key stays tracked. Every tracked lock key is gone, and nothing else changes. |
| LegacyLock.ExclusiveLock.UpdateLocksTimeout | ExclusiveLock.php:144-149 | Every tracked lock key holds the same fresh deadline, and nothing else changes. |
| Client.RedisClient.constructor | src/Kdyby/Redis/RedisClient.php:450-457 | The client's lease lock locks through this very connection. It starts with no leases and the default settings. |
| Client.RedisClient.SetupLockDuration | src/Kdyby/Redis/RedisClient.php:465-468 | The lease duration becomes the absolute value of the timeout. Nothing else changes. |
| Client.RedisClient.Lock | src/Kdyby/Redis/RedisClient.php:476-479 | The lock's new state and the result are LockSpec.Acquire of the old ones. |
| Client.RedisClient.Unlock | src/Kdyby/Redis/RedisClient.php:486-489 | The lock's new state is LockSpec.Release of the old one. |
| Client.RedisClient.Close | src/Kdyby/Redis/RedisClient.php:287-293 | Every lease taken through this connection is released, and its `:timeout` key is gone. A lease still live hands its token back. The lock's settings are kept, and no key outside the leases' `:timeout` keys and token lists changes. |
| Pool.DigitSum | src/Kdyby/Redis/ClientsPool.php:67 | The sum of a digest's characters under PHP 7 number conversion. A decimal digit counts its value and a hexadecimal letter counts 0. The sum is at most 9 per character, and 0 for a digest without digits. |
| Pool.ShardIndex | src/Kdyby/Redis/ClientsPool.php:68 | The index that choose takes is always a valid position among the local clients. |
| Pool.Admit | src/Kdyby/Redis/ClientsPool.php:42-56 | One array of the constructor. It succeeds exactly when every element is a client, and keeps them all in the given order. Otherwise its error names the type of the first element that is not a client. |
| Pool.NewPool | src/Kdyby/Redis/ClientsPool.php:40-57 | The constructor succeeds exactly when both arrays hold only clients. The local and remote lists are kept in order. A failure reports the first non-client of the local array, and only when the local array holds only clients the first non-client of the remote array. |
| Pool.ClientsPool.constructor | src/Kdyby/Redis/ClientsPool.php:40-57 | The pool holds the given local and remote lists and digest function. |
| Pool.ClientsPool.Choose | src/Kdyby/Redis/ClientsPool.php:65-69 | choose returns a local client (never a remote one), the one at the digit sum of the key's md5 modulo the number of local clients. It needs at least one local client. |
| Pool.ClientsPool.Get | src/Kdyby/Redis/ClientsPool.php:78-85 | get returns the local client at index i when there is one, and InvalidArgumentException with the source's message otherwise. |
| Pool.ClientsPool.All | src/Kdyby/Redis/ClientsPool.php:92-95 | Iteration yields all local clients in order, then all remote clients in order. |
| Pool.DigitSumAppend | src/Kdyby/Redis/ClientsPool.php:67 | The digit sum splits over concatenation, so every character of the digest contributes. |
| Connections.KeyIgnoresCase | src/Kdyby/Redis/ConnectionPool.php:69-72 | The pool key lower-cases the host, so hosts that differ only in case share a slot. |
| Connections.KeyInjective | src/Kdyby/Redis/ConnectionPool.php:69-72 | Two host/port pairs share a pool key only when their lower-cased hosts and their ports are equal, even for hosts that contain colons. |
| Connections.AddThenFind | src/Kdyby/Redis/ConnectionPool.php:37-46 | After a connection is registered, lookup under that host (in any case) and port returns it. Every other host and port finds what it found before. |
| Connections.ConnectionPool.constructor | src/Kdyby/Redis/ConnectionPool.php:27 | A new registry is empty. |
| Connections.ConnectionPool.AddConnection | src/Kdyby/Redis/ConnectionPool.php:37-46 | A taken slot fails with ConnectionAlreadyInPoolException and leaves the registry unchanged. A free slot stores the connection under the pool key. |
| Connections.ConnectionPool.GetConnection | src/Kdyby/Redis/ConnectionPool.php:56-65 | The result is NULL for a host and port never added, and otherwise the connection stored under the pool key. |
| StorageRouting.StorageRouter.constructor | src/Kdyby/Redis/StorageRouter.php:31-35 | The router keeps the pool and the journal. It has no current client yet, and locking is on. |
| StorageRouting.StorageRouter.DisableLocking | src/Kdyby/Redis/RedisStorage.php:72-75 | Inherited disableLocking turns locking off and keeps the current client. |
| StorageRouting.StorageRouter.Bind | src/Kdyby/Redis/StorageRouter.php:40 | Assigning the current client: the storage code then runs with that client, the router's journal and codec, and its locking setting. |
| StorageRouting.StorageRouter.Read | src/Kdyby/Redis/StorageRouter.php:38-42 | The current client becomes the pool's choice for the key. A missing entry reads as NULL and changes nothing. For a stored entry, that shard's new keyspace and the answer are Storage.ReadOneRun of its old keyspace. A non-NULL answer is the payload of an entry that verified on that shard. |
| StorageRouting.StorageRouter.Lock | src/Kdyby/Redis/StorageRouter.php:46-50 | The current client becomes the key's shard. With locking off the result is TRUE and nothing changes. Otherwise that shard's lock moves as LockSpec.Acquire. |
| StorageRouting.StorageRouter.Write | src/Kdyby/Redis/StorageRouter.php:54-58 | The current client becomes the key's shard, and the storage's write runs there. It gives the same result, envelope, TTL and error cases as Storage.RedisStorage.Write. The journal records the entry as Journal.Recorded states. On that shard only the entry and its lease keys change outside the journal namespace, and a journal on another server changes only its namespace. |
| StorageRouting.StorageRouter.Remove | src/Kdyby/Redis/StorageRouter.php:62-66 | The current client becomes the key's shard, and only that shard's entry key is deleted. |
| StorageRouting.StorageRouter.Clean | src/Kdyby/Redis/StorageRouter.php:70-76 | The storage's clean runs once per client in pool iteration order, remote clients included. The first failure, a journal's `del` without keys in a full clean, ends the loop: every shard cleaned so far has no storage key, and that shard's client stays current. Otherwise the last client stays current, and with Cache::ALL no shard is left with a storage key. A conditional clean never fails, and without a journal it changes no shard. |
| StorageRouting.StorageRouter.CleanShard | src/Kdyby/Redis/StorageRouter.php:72-75 | One round of the loop. The i-th client becomes current and cleans. It fails exactly when the clean is full and the journal has no key left. With Cache::ALL that shard loses every storage key, and no shard that had none gains any. |
| JournalRouting.Merge | src/Kdyby/Redis/JournalRouter.php:51 | array_merge of two clean results under PHP 7. Two lists concatenate, and a NULL on either side yields NULL. |
| JournalRouting.MergedIsConcat | src/Kdyby/Redis/JournalRouter.php:48-54 | The routed result is NULL exactly when some shard answered NULL (as every Cache::ALL clean does). Otherwise it is the concatenation of the shards' lists in iteration order, starting from the empty list, with no cross-shard deduplication. |
| JournalRouting.ConcatMembers | src/Kdyby/Redis/JournalRouter.php:48-54 | A key is in the concatenated result exactly when some shard returned it. |
| JournalRouting.Answers | src/Kdyby/Redis/JournalRouter.php:51 | Each shard contributes the result that LuaJournal.CleanResult computes from its reply. |
| JournalRouting.MergedStep | src/Kdyby/Redis/JournalRouter.php:51 | Each round of the loop merges one more shard's result into the running result. |
| JournalRouting.SentOneMore | src/Kdyby/Redis/JournalRouter.php:50-51 | Each round sends the clean script to the next shard, with the same conditions and storage argument. |
| JournalRouting.JournalRouter.constructor | src/Kdyby/Redis/JournalRouter.php:31-34 | The router keeps the pool and the script journal it re-points. |
| JournalRouting.JournalRouter.Write | src/Kdyby/Redis/JournalRouter.php:38-42 | The key's own shard, as `ClientsPool::choose` picks it, runs the write script with the escaped key and the filtered dependencies. The result succeeds exactly when the reply is TRUE. |
| JournalRouting.JournalRouter.Clean | src/Kdyby/Redis/JournalRouter.php:46-55 | Every client of the pool, in iteration order, receives the clean script with identical arguments. The router fails with a client error exactly when some shard's reply is neither a list nor TRUE. Otherwise the result is the merged result of all shards. |
| LuaJournal.Escape | src/Kdyby/Redis/RedisLuaJournal.php:70 | The escape of write runs three passes in order: a backslash is doubled, then a colon gets a backslash, then the NUL namespace separator becomes a colon. No NUL is left in the result. |
| LuaJournal.EscapeOne | src/Kdyby/Redis/RedisLuaJournal.php:70 | The three passes over one character give that character's escape. |
| LuaJournal.EscapeCons | src/Kdyby/Redis/RedisLuaJournal.php:70 | The three passes work character by character. |
| LuaJournal.SeparatorsBack | src/Kdyby/Redis/RedisLuaJournal.php:106 | The first pass of the unescape closure turns every colon that does not follow a backslash into NUL. It keeps the length. |
| LuaJournal.Collapse | src/Kdyby/Redis/RedisLuaJournal.php:106 | The later passes turn each backslash-plus-character pair, scanned left to right, into that character. They never lengthen the text. |
| LuaJournal.Unescape | src/Kdyby/Redis/RedisLuaJournal.php:105-107 | The unescape closure applies its three replacements in order, and never lengthens a key. |
| LuaJournal.UnescapeOfEscape | src/Kdyby/Redis/RedisLuaJournal.php:70-107 | For every key without a backslash, unescaping the escaped key gives the key back. |
| LuaJournal.BackslashBeforeSeparator | src/Kdyby/Redis/RedisLuaJournal.php:70-107 | The pair is not a round trip in general. A backslash followed by NUL escapes to two backslashes and a colon, which unescape to a backslash and a colon. |
| LuaJournal.ToList | src/Kdyby/Redis/RedisLuaJournal.php:116 | The array cast of a set value: a list stays as it is, and a scalar becomes a one-element list. |
| LuaJournal.FlattenDp | src/Kdyby/Redis/RedisLuaJournal.php:113-121 | flattenDp keeps exactly the tags, priority, all and delete-entries entries, unchanged except that a set tag becomes a list. |
| LuaJournal.FlattenDpIdempotent | src/Kdyby/Redis/RedisLuaJournal.php:113-121 | Flattening an already flattened array changes nothing. |
| LuaJournal.FlattenDpDrops | src/Kdyby/Redis/RedisLuaJournal.php:118 | Any other entry never reaches the scripts, and a set tag always arrives as a list. |
| LuaJournal.CleanResult | src/Kdyby/Redis/RedisLuaJournal.php:97-108 | A reply that is neither a list nor TRUE fails with a client error, and only such a reply fails. With a RedisStorage the result is the empty list. Otherwise a list reply yields as many keys as it has distinct keys, and TRUE yields NULL. |
| LuaJournal.UnescapeAll | src/Kdyby/Redis/RedisLuaJournal.php:108 | The result holds the unescaped keys of the reply after array_unique, position by position. |
| LuaJournal.UnescapeAllOfEscaped | src/Kdyby/Redis/RedisLuaJournal.php:70-108 | When the script returns the escaped forms of written keys without backslashes, clean returns exactly those keys. |
| LuaJournal.Sent | src/Kdyby/Redis/RedisLuaJournal.php:90-92 | With a RedisStorage the conditions gain delete-entries = '1'. Every other entry is passed on unchanged. |
| LuaJournal.RedisStorageDeletesEntries | src/Kdyby/Redis/RedisLuaJournal.php:90-94 | With a RedisStorage the scripts are always asked to delete the entries as well. |
| LuaJournal.ScriptJournal.constructor | src/Kdyby/Redis/RedisLuaJournal.php:52-55 | A new journal has an empty script memo and has sent nothing. |
| LuaJournal.ScriptJournal.GetScript | src/Kdyby/Redis/RedisLuaJournal.php:125-135 | The first request for a script loads the prelude followed by its body and memoises it. Every later request returns the memoised text, with the memo unchanged. |
| LuaJournal.ScriptJournal.Eval | src/Kdyby/Redis/RedisClient.php:431-443 | evalScript sends exactly one call, with this connection, that script, its keys and its argument. |
| LuaJournal.ScriptJournal.Write | src/Kdyby/Redis/RedisLuaJournal.php:67-76 | One call of the write script goes out, with the escaped key and the flattened dependencies. The result succeeds exactly when the reply is TRUE, and otherwise is a client error. |
| LuaJournal.ScriptJournal.Clean | src/Kdyby/Redis/RedisLuaJournal.php:88-109 | One call of the clean script goes out, with the flattened conditions (plus delete-entries for a RedisStorage). The result is CleanResult of the reply. |
| Journal.TagList | src/Kdyby/Redis/RedisJournal.php:69 | The tags of a write: none for a missing or falsy (empty or "0") scalar, the scalar alone, or the given array. |
| Journal.FormatKey | src/Kdyby/Redis/RedisJournal.php:239-242 | formatKey is the namespace, the key, and a colon plus the suffix only when the suffix is truthy. The result always starts with the namespace. |
| Journal.KeyNamesAreFormatted | src/Kdyby/Redis/RedisJournal.php:71-76 | The tag, entry-tags, entry-priority and priority key names are formatKey with the suffixes keys, tags, priority and none. |
| Journal.KeysDistinct | src/Kdyby/Redis/RedisJournal.php:239-242 | The four kinds of journal key never collide, each kind is injective, and all of them lie inside the journal namespace. |
| Journal.UnindexKeepsSymmetry | src/Kdyby/Redis/RedisJournal.php:90-106 | Taking a key out of the index keeps tag membership symmetric, and leaves the key under no tag. |
| Journal.IndexKeepsSymmetry | src/Kdyby/Redis/RedisJournal.php:70-73 | Adding a key under a set of tags on both sides of the index keeps tag membership symmetric. |
| Journal.UnlinkOneMore | src/Kdyby/Redis/RedisJournal.php:96-98 | Each round of cleanEntry's loop takes the key out of one more tag's set, and changes nothing else. |
| Journal.LinkOneMore | src/Kdyby/Redis/RedisJournal.php:70-73 | Each round of write's loop adds the key under one more tag, on both sides, and changes nothing else. |
| Journal.LinkedTags | src/Kdyby/Redis/RedisJournal.php:71 | In one round of write's loop, the key joins the set of that tag and of no other tag. |
| Journal.DropEntryKeys | src/Kdyby/Redis/RedisJournal.php:101-102 | The DEL of the entry's tags and priority keys, then the ZREM of its score, remove exactly those and touch no other journal key. |
| Journal.UnlinkThenDrop | src/Kdyby/Redis/RedisJournal.php:90-106 | The stages of cleanEntry together take the key out of the index, delete its own keys, drop its score, and touch nothing else. |
| Journal.ScoredKeeps | src/Kdyby/Redis/RedisJournal.php:75-77 | The ZADD of write changes only the priority set, and sets the key's score there. |
| Journal.LinkScoreIndexed | src/Kdyby/Redis/RedisJournal.php:70-77 | The tag loop followed by the ZADD leaves the key indexed under exactly the loop's tags. |
| Journal.CleanIndexedTags | src/Kdyby/Redis/RedisJournal.php:62-77 | After write the entry's tag set is exactly its distinct tags, and it sits in each of their key sets. No other entry's tags change, and no tag set gains anything but this key. |
| Journal.CleanScoredPriority | src/Kdyby/Redis/RedisJournal.php:64-102 | After write the key has a score exactly when a priority was given, and the score equals that priority. Its priority key is absent. |
| Journal.CleanLinkScore | src/Kdyby/Redis/RedisJournal.php:62-80 | The three stages of write (cleanEntry, the tag loop, the ZADD) together establish what write promises. |
| Journal.WriteKeepsSymmetry | src/Kdyby/Redis/RedisJournal.php:62-80 | write keeps a symmetric index symmetric, and afterwards the key is under exactly the tags it was written with. |
| Journal.EntriesStayOutside | src/Kdyby/Redis/RedisJournal.php:62-80 | Writing a cache key keeps every indexed key outside the journal namespace. |
| Journal.UntagOneMore | src/Kdyby/Redis/RedisJournal.php:180-184 | Each round of cleanBatchData's tag loop drops the keys from one more truthy tag, and skips a falsy tag without a command. |
| Journal.UntagCovers | src/Kdyby/Redis/RedisJournal.php:179-184 | Untagging every member of the SUNION of the batch's tag sets leaves none of the given keys under any truthy tag of any batch entry. |
| Journal.BatchKeysGone | src/Kdyby/Redis/RedisJournal.php:186-190 | The DELs of the batch's own keys leave none of them behind. |
| Journal.BatchStages | src/Kdyby/Redis/RedisJournal.php:175-194 | The stages of cleanBatchData together leave the batch un-indexed as Batched describes. |
| Journal.BatchDels | src/Kdyby/Redis/RedisJournal.php:186-193 | The three DELs of cleanBatchData delete exactly the batch's own keys and, for a RedisStorage, the cached entries. Tag sets and scores are untouched. |
| Journal.TagsFoundAppend | src/Kdyby/Redis/RedisJournal.php:133-137 | The entries collected for one more tag are those found so far plus that tag's members. |
| Journal.FoundOutside | src/Kdyby/Redis/RedisJournal.php:130-147 | When the index holds only cache keys, a clean selects only cache keys. |
| Journal.BatchedTrans | src/Kdyby/Redis/RedisJournal.php:154-168 | Two batches of distinct entries, one after the other, have the effect of one batch of both. |
| Journal.BatchedAll | src/Kdyby/Redis/RedisJournal.php:168 | Once the last batch is flushed, every selected entry has been cleaned. |
| Journal.GatheredOneMore | src/Kdyby/Redis/RedisJournal.php:155-159 | Each round of clean's batch loop adds the entry's tags and priority keys (and, for a RedisStorage, the entry itself) to the batch. |
| Journal.FlushKeeps | src/Kdyby/Redis/RedisJournal.php:160-165 | Flushing a batch extends the prefix of cleaned entries by that batch. |
| Journal.TagsThenPriority | src/Kdyby/Redis/RedisJournal.php:131-147 | The first two stages of clean delete the requested tags' key sets and then the priorities in the range from 0 to the limit, and touch nothing else. |
| Journal.CleanStages | src/Kdyby/Redis/RedisJournal.php:118-171 | The selection followed by the batches has exactly the effect that Cleaned describes. |
| Journal.SelectedTags | src/Kdyby/Redis/RedisJournal.php:131-187 | After clean the requested tags' sets are empty, and tag sets only shrink. They lose only selected entries, and every selected entry has left every truthy tag it had. |
| Journal.SelectedEntries | src/Kdyby/Redis/RedisJournal.php:143-193 | After clean, only the selected entries lose their own keys. The scores in the range are dropped. Among the cache keys only the deleted entries change. |
| Journal.CleanKeepsSymmetry | src/Kdyby/Redis/RedisJournal.php:118-194 | With a symmetric index whose tags are all truthy, clean keeps the index symmetric, and no selected entry remains under any tag. |
| Journal.CleanKeepsEntriesOutside | src/Kdyby/Redis/RedisJournal.php:118-194 | clean only removes entries, so an index of cache keys stays one. |
| Journal.WrittenTagSelects | src/Kdyby/Redis/RedisJournal.php:71-134 | A later clean by any tag an entry was written with selects that entry. |
| Journal.RecordedStays | src/Kdyby/Redis/RedisJournal.php:62-80 | What write records in the journal's keys survives any change to keys outside the journal namespace, such as the storage's own SET after it. |
| Journal.WrittenPrioritySelects | src/Kdyby/Redis/RedisJournal.php:76-204 | A later clean by priority selects a written entry exactly when its priority lies between 0 and the limit. |
| Journal.RedisJournal.constructor | src/Kdyby/Redis/RedisJournal.php:47-50 | The journal talks to the given server. |
| Journal.RedisJournal.EntryTagsOf | src/Kdyby/Redis/RedisJournal.php:214-217 | entryTags returns the members of the entry's tag set, each once. |
| Journal.RedisJournal.TagEntries | src/Kdyby/Redis/RedisJournal.php:226-229 | tagEntries returns the members of the tag's key set, each once. |
| Journal.RedisJournal.PriorityEntries | src/Kdyby/Redis/RedisJournal.php:202-205 | priorityEntries returns exactly the keys whose score lies between 0 and the limit, each once. Keys with a negative score are never returned. |
| Journal.RedisJournal.CleanEntry | src/Kdyby/Redis/RedisJournal.php:90-106 | The key is taken out of every tag set listed in its tag set. Its tag and priority keys are deleted and its score is removed. Nothing else changes, and a symmetric index stays symmetric. |
| Journal.RedisJournal.Link | src/Kdyby/Redis/RedisJournal.php:70-73 | The loop adds the key to each tag's set and each tag to the key's set, and changes nothing else. |
| Journal.RedisJournal.Write | src/Kdyby/Redis/RedisJournal.php:62-80 | After write, the entry's tag set is exactly its distinct tags and the entry is in each of their sets. It has a score exactly when a priority was given, equal to that priority. No other entry's tags, tag memberships, priority key or score changes, and no cache key changes. A symmetric index stays symmetric, with the key under exactly its tags. |
| Journal.RedisJournal.Untag | src/Kdyby/Redis/RedisJournal.php:180-184 | The loop drops the keys from every truthy affected tag's set, and skips falsy tags. |
| Journal.RedisJournal.CleanBatchData | src/Kdyby/Redis/RedisJournal.php:175-194 | When the given cache keys lie outside the journal: the truthy tags of every batch entry lose all of the given keys, and no other key leaves a tag set. The batch's tag and priority keys are deleted, along with the given cache keys, and the rest of the journal is untouched. |
| Journal.RedisJournal.CleanAll | src/Kdyby/Redis/RedisJournal.php:120-128 | When some journal key exists (or, for a RedisStorage, some storage key), every such key is deleted and every other key is untouched. When there is none, the `del` without arguments fails with a client error and nothing changes. |
| Journal.RedisJournal.Select | src/Kdyby/Redis/RedisJournal.php:130-147 | The collected entries are exactly the members of the requested tags plus the keys scored between 0 and the limit. The tags' key sets and that score range are removed, and nothing else changes. |
| Journal.RedisJournal.CleanBatches | src/Kdyby/Redis/RedisJournal.php:149-168 | Over the distinct selected entries, the batches together clean every entry, as one Batched step over all of them. |
| Journal.RedisJournal.Push | src/Kdyby/Redis/RedisJournal.php:154-166 | One round of the batch loop adds the entry to the batch and flushes the batch once it holds 8000 entries, so a batch never exceeds that. |
| Journal.RedisJournal.Gather | src/Kdyby/Redis/RedisJournal.php:155-159 | The batch lists grow by the entry's own keys and, for a RedisStorage, the entry. |
| Journal.RedisJournal.FlushBatch | src/Kdyby/Redis/RedisJournal.php:161-168 | One cleanBatchData call on at most 8000 entries extends the cleaned prefix by that batch. |
| Journal.RedisJournal.Clean | src/Kdyby/Redis/RedisJournal.php:118-171 | With Cache::ALL the result is NULL, every journal key (and for a RedisStorage every storage key) is deleted, and nothing else changes. That clean fails with the client error of a `del` without keys exactly when no such key exists. Otherwise, with a RedisStorage the result is the empty list. Without one it lists each selected entry once. Without a RedisStorage, or when the index holds only cache keys, the store ends as Cleaned describes. |
| LegacyJournal.Mangle | RedisJournal.php:179 | Every namespace separator (NUL) in the key becomes a colon, so the result holds no NUL. A key without NUL is kept as it is. |
| LegacyJournal.GetEntryKey | RedisJournal.php:177-180 | getEntryKey lies in the journal namespace. For a key without NUL it coincides with the current journal's formatKey. |
| LegacyJournal.NamesAreEntryKeys | RedisJournal.php:67-72 | The tag list, entry tag list, entry priority and priority set names are getEntryKey with the suffixes keys, tags, priority and none. |
| LegacyJournal.SeparatorCollides | RedisJournal.php:179 | Two keys that differ only in a NUL against a colon share their index lists. |
| LegacyJournal.NamesDistinct | RedisJournal.php:177-180 | A tag list, an entry tag list, an entry priority key and the priority set never share a name. |
| LegacyJournal.WithoutIdempotent | RedisJournal.php:86 | An LREM of the key from a list that has already lost it changes nothing. |
| LegacyJournal.TagsFoundAppend | RedisJournal.php:116-121 | The entries selected by one more tag are those selected so far plus that tag's list. |
| LegacyJournal.UnlistOneMore | RedisJournal.php:85-87 | Each round of cleanEntry's loop removes the key from one more tag's list, once even when two tags share a list, and touches no other key. |
| LegacyJournal.UnlistSame | RedisJournal.php:86 | The tag just unlisted has lost the key compared with its original list. |
| LegacyJournal.UnlistOther | RedisJournal.php:85-87 | A tag unlisted earlier keeps the list it had after its own round. |
| LegacyJournal.DropKeepsTag | RedisJournal.php:90-92 | The two DELs and the ZREM of cleanEntry leave every tag list as it was. |
| LegacyJournal.TagListsAvoid | RedisJournal.php:177-180 | No tag list is an entry's own tag list, its priority key or the priority set. |
| LegacyJournal.DropThree | RedisJournal.php:90-92 | After the tag loop, cleanEntry removes the entry's tag list and priority key, drops its score, and touches nothing else. |
| LegacyJournal.UnlistThenDrop | RedisJournal.php:83-93 | The tag loop and the drops together have the effect EntryCleaned describes. |
| LegacyJournal.ProgressOneMore | RedisJournal.php:117-119 | Cleaning one more entry keeps clean's progress: tag lists and scores only lose cleaned entries. Every cleaned entry whose journal keys no other cleaned entry shares has left the lists of all the tags it listed at the start. Entries not cleaned stay in every list and keep their tag lists, unless one shares its journal keys with a cleaned entry. Only the cleaned entries' keys, their tags' lists and the priority set differ from the start. |
| LegacyJournal.CleanedTag | RedisJournal.php:86 | Cleaning an entry takes only that entry out of any tag list. |
| LegacyJournal.CleanedOther | RedisJournal.php:90 | Cleaning one entry does not bring back the tag list of an entry cleaned before. |
| LegacyJournal.CleanedOtherPriority | RedisJournal.php:91 | Cleaning one entry does not bring back the priority key of an entry cleaned before. |
| LegacyJournal.TagStep | RedisJournal.php:116-120 | Reading a tag's list part-way through clean still adds what that tag's original list holds. Entries cleaned before leave a list but are already selected. |
| LegacyJournal.ProgressSnoc | RedisJournal.php:117-119 | The set of cleaned entries grows by the next entry of the list. |
| LegacyJournal.PriorityStep | RedisJournal.php:124-128 | Reading the priority range part-way through clean still adds what the original range holds. |
| LegacyJournal.ListedSlice | RedisJournal.php:66-69 | The loop's state over the first tags plus one more is its state over one more prefix of the tags. |
| LegacyJournal.ListOneMore | RedisJournal.php:66-69 | Each round of write's loop appends the key to one more tag's list and the tag to the key's list. |
| LegacyJournal.ListedThenScored | RedisJournal.php:66-73 | The tag loop followed by the optional ZADD leaves the entry written. |
| LegacyJournal.ScoreKeeps | RedisJournal.php:72 | The ZADD of write leaves every tag list and the key's own tag list and priority key as they were. |
| LegacyJournal.ListedWritten | RedisJournal.php:66-73 | A state equal to the loop's on the lists and the key's own keys, with the key scored at its priority, is written. |
| LegacyJournal.WrittenTagSelects | RedisJournal.php:67-116 | A later clean by any tag an entry was written with selects that entry. |
| LegacyJournal.WrittenPrioritySelects | RedisJournal.php:72-142 | A later clean by priority selects a written entry exactly when its priority lies between 0 and the limit. |
| LegacyJournal.WrittenThenCleaned | RedisJournal.php:83-93 | Cleaning a written entry takes it out of the list of every tag it was written with and drops its score. |
| LegacyJournal.WrittenKeys | RedisJournal.php:60-74 | The keys write may change: the lists of the entry's old and new tags, its own two journal keys and the priority set, all inside the journal namespace. |
| LegacyJournal.RecordStays | RedisJournal.php:60-74 | What write records, and what it keeps of the other entries, survive any change outside the journal namespace. |
| LegacyJournal.CleanKeysInside | RedisJournal.php:113-131 | Every key a conditional clean may change lies inside the journal namespace. |
| LegacyJournal.IndexCleanedStays | RedisJournal.php:113-131 | What clean leaves in the index survives any change outside the journal namespace, such as the storage's deletion of the cleaned entries. |
| LegacyJournal.RedisJournal.constructor | RedisJournal.php:45-48 | The journal talks to the given server. |
| LegacyJournal.RedisJournal.EntryTagsOf | RedisJournal.php:152-155 | entryTags returns the entry's tag list, in order and with repeats. |
| LegacyJournal.RedisJournal.TagEntries | RedisJournal.php:164-167 | tagEntries returns the tag's list, in order and with repeats. |
| LegacyJournal.RedisJournal.PriorityEntries | RedisJournal.php:140-143 | priorityEntries returns exactly the keys scored between 0 and the limit, each once. |
| LegacyJournal.RedisJournal.Unlist | RedisJournal.php:85-87 | The loop removes every occurrence of the key from the list of each given tag, and touches no other key. |
| LegacyJournal.RedisJournal.CleanEntry | RedisJournal.php:83-93 | The key leaves the lists of the tags it listed. Its tag list and priority key are deleted and its score is dropped. Nothing else changes. |
| LegacyJournal.RedisJournal.Write | RedisJournal.php:60-74 | After write the entry's tag list holds each of its distinct tags once, in order. The key is in each of those tags' lists. It has a score exactly when a priority was given, equal to that priority, and no priority key. Only the entry's own keys, the written tags' lists, the lists of the tags it listed before and the priority set change. No other entry joins or leaves any tag list, and no other entry's score changes. |
| LegacyJournal.RedisJournal.CleanAll | RedisJournal.php:106-111 | Every journal key is deleted and every other key is kept. |
| LegacyJournal.RedisJournal.CleanEntries | RedisJournal.php:117-119 | Cleaning each found entry in turn extends clean's progress by all of them, including their leaving their tags' lists. |
| LegacyJournal.RedisJournal.Clean | RedisJournal.php:104-132 | With Cache::ALL the result is NULL, every journal key is deleted and nothing else changes. Otherwise the result lists each selected entry once, and the selection is exactly the entries the tags and the priority range select. Every selected entry has lost its tag list, priority key and score. One whose journal keys no other selected entry shares has left the list of every tag it listed. Unselected entries stay in every list and keep their tag lists, unless one shares its journal keys with a selected entry. Lists only shrink, and nothing outside the selected entries' keys, their tags' lists and the priority set changes. |
| LegacyJournal.RedisJournal.CleanSelected | RedisJournal.php:113-131 | The entries cleaned are exactly those the tags and the priority range select in the journal as it was before the call, and clean's progress holds for them. |
| LegacyJournal.ProgressCleaned | RedisJournal.php:113-131 | The progress of clean's loop over all the selected entries is the cleaned state that clean promises. |
| LegacyJournal.WrittenThenClean | RedisJournal.php:60-132 | A clean that selects a written entry takes it out of the list of every tag it was written with and drops its score, as long as no other selected entry shares its journal keys. |
| Storage.FormatEntryKey | src/Kdyby/Redis/RedisStorage.php:303-306 | The entry key is the storage namespace and a colon followed by the key, with every NUL namespace separator turned into a colon. It never holds a NUL. |
| Storage.EntryKeyOutsideJournal | src/Kdyby/Redis/RedisStorage.php:303-306 | No storage key lies in the journal namespace. |
| Storage.Expiration | src/Kdyby/Redis/RedisStorage.php:201-208 | Without an expiration neither expiry is set. A non-sliding one sets the absolute expiry to now plus the expiration. A sliding one sets only the sliding expiry. Never both. |
| Storage.Payload | src/Kdyby/Redis/RedisStorage.php:231-234 | A string is stored as it is and marked unserialized. Anything else is serialized and marked so. |
| Storage.ProcessStoredValue | src/Kdyby/Redis/RedisStorage.php:366-370 | A value without a NUL is all metadata with no payload. Otherwise the payload is the text after the first NUL. The key is attached to the metadata. |
| Storage.Unserialized | src/Kdyby/Redis/RedisStorage.php:378-386 | An unserialized payload is returned as text (NULL when missing). A serialized one is passed to unserialize. |
| Storage.PayloadRoundTrip | src/Kdyby/Redis/RedisStorage.php:231-234 | Under a sound codec, unpacking the stored payload gives back the written data. |
| Storage.EnvelopeRoundTrip | src/Kdyby/Redis/RedisStorage.php:236 | Under a sound codec, splitting the stored envelope at its first NUL gives back the written metadata and payload, and so the data. |
| Storage.StoredAt | src/Kdyby/Redis/RedisStorage.php:331-338 | doRead finds an entry exactly when the entry key holds a truthy string. |
| Storage.MetaAt | src/Kdyby/Redis/RedisStorage.php:315-323 | readMeta finds metadata exactly when doRead finds an entry. |
| Storage.ItemStaleCases | src/Kdyby/Redis/RedisStorage.php:144 | A dependent item missing at write time and still missing is not stale. An item whose current stamp differs from the recorded one is stale. |
| Storage.KeptMeta | src/Kdyby/Redis/RedisStorage.php:144 | If the database only lost values, metadata still found is what it was. |
| Storage.KeptNoEntries | src/Kdyby/Redis/RedisStorage.php:278-286 | Losing values never brings a storage entry back. |
| Storage.KeptTrans | src/Kdyby/Redis/RedisStorage.php:153 | Two steps that only delete values together only delete values. |
| Storage.RecordsSlice | src/Kdyby/Redis/RedisStorage.php:211-215 | The recorded items for the first names plus one are those for one more prefix of the names. |
| Storage.RecordOneMore | src/Kdyby/Redis/RedisStorage.php:211-215 | Each round of write's item loop records a new name with its current stamp, or keeps a repeated name in its first place. |
| Storage.ReadsFromOneMore | src/Kdyby/Redis/RedisStorage.php:105-116 | Adding one more value read from the snapshot keeps every value of multiRead read from that snapshot. |
| Storage.RedisStorage.constructor | src/Kdyby/Redis/RedisStorage.php:64-68 | The storage talks to the given client and journal, and locking is on. |
| Storage.RedisStorage.DisableLocking | src/Kdyby/Redis/RedisStorage.php:72-75 | Locking is off afterwards. |
| Storage.RedisStorage.DoRead | src/Kdyby/Redis/RedisStorage.php:331-338 | doRead returns the processed value of the entry key when it holds a truthy string, and nothing otherwise. |
| Storage.RedisStorage.ReadMeta | src/Kdyby/Redis/RedisStorage.php:315-323 | readMeta returns the metadata of the stored entry, if any. |
| Storage.RedisStorage.Remove | src/Kdyby/Redis/RedisStorage.php:261-264 | remove deletes the entry key. |
| Storage.RedisStorage.Verify | src/Kdyby/Redis/RedisStorage.php:127-155 | The new keyspace and the result are those of VerifyRun from the old keyspace. By VerifyRunPasses, verify succeeds exactly when the entry has not expired, its callbacks hold, and every dependent item, read in the keyspace verify has reached when it gets there, keeps its recorded stamp and, when it exists, verifies in turn. Values are only deleted, and a failure leaves no entry. |
| Storage.RedisStorage.CheckEntry | src/Kdyby/Redis/RedisStorage.php:130-139 | The first checks of verify fail exactly when the entry has expired or its callbacks do not hold. The keyspace afterwards is Touched of the old one: a non-zero sliding expiry is sent as EXPIRE, and nothing else changes. |
| Storage.RedisStorage.VerifyItem | src/Kdyby/Redis/RedisStorage.php:142-146 | One dependent item: the new keyspace and the outcome are ItemRun of the old keyspace. An item whose current stamp differs from the recorded one fails, a missing one passes, and an existing one must verify in turn. |
| Storage.WriteThenRead | src/Kdyby/Redis/RedisStorage.php:195-252 | Under a sound codec, the envelope write stores is found by doRead with the written metadata and payload. When the entry is unexpired, its callbacks hold and its dependent items pass, it passes verify and unpacks to the written data. |
| Storage.MissingItemPasses | src/Kdyby/Redis/RedisStorage.php:144 | A dependent item that had no entry at write time and still has none passes verify's item check. |
| Storage.SameValuesPasses | src/Kdyby/Redis/RedisStorage.php:127-155 | Whether an entry passes verify's checks depends only on the values stored, not on TTLs. |
| Storage.Touched | src/Kdyby/Redis/RedisStorage.php:130-132 | verify's sliding-expiry step only deletes values (a negative EXPIRE removes the key). A positive delta keeps every value, and without a non-zero delta nothing changes. |
| Storage.ItemsRunPasses | src/Kdyby/Redis/RedisStorage.php:141-147 | verify's item loop gets through exactly when each dependent item, read in the keyspace the items before it left, keeps its recorded stamp and, when it exists, verifies in turn. |
| Storage.VerifyRunPasses | src/Kdyby/Redis/RedisStorage.php:127-155 | A run of verify succeeds exactly when the entry has not expired, its callbacks hold and every dependent item verifies where verify reaches it (Verified). |
| Storage.ReadOneRun | src/Kdyby/Redis/RedisStorage.php:88-92 | Reading one entry: with no entry the answer is NULL and nothing changes. A non-NULL answer is the entry's unserialized payload, and its verify succeeded in the keyspace the read started from. |
| Storage.ReadRun | src/Kdyby/Redis/RedisStorage.php:107-113 | multiRead's loop answers for exactly the keys it was given plus those already answered, and leaves earlier answers alone. |
| Storage.Snapshots | src/Kdyby/Redis/RedisStorage.php:346-357 | The single MGET of multiRead takes one snapshot per asked key, and no others. |
| Storage.ReadRunEach | src/Kdyby/Redis/RedisStorage.php:107-113 | Each key multiRead answers gets what reading it alone would give, in the keyspace the keys before it left. |
| Storage.ReadRunVerified | src/Kdyby/Redis/RedisStorage.php:107-113 | Every non-NULL value multiRead reports is the payload of that key's snapshot, and that entry's verify succeeded where the loop reached it. |
| Storage.ReadRunStep | src/Kdyby/Redis/RedisStorage.php:108-112 | One more key read: the rest of multiRead's loop continues from the keyspace that read left, with that answer added. |
| Storage.WriteKeys | src/Kdyby/Redis/RedisStorage.php:238-246 | The keys write may change on the storage's own server: the entry key and its lease's `:lock` and `:lock:timeout` keys. None of them lies in the journal namespace. |
| Storage.NoJournalKeysLost | src/Kdyby/Redis/RedisStorage.php:278-285 | Deleting storage keys never changes which journal keys exist, so a full clean's journal step finds the same journal keys whether or not it shares the storage's server. |
| Storage.EntryExpires | src/Kdyby/Redis/RedisStorage.php:238-241 | An entry stored with a TTL reads as missing once the server has dropped the keys expired at its deadline, and is untouched by eviction before it. |
| Storage.RedisStorage.Read | src/Kdyby/Redis/RedisStorage.php:86-93 | A missing entry reads as NULL and changes nothing. For a stored entry, the new keyspace and the answer are ReadOneRun of the old keyspace. A non-NULL answer is the unserialized payload of an entry whose verify succeeded, so it has not expired, its callbacks hold and its dependent items verified. A NULL answer for a stored entry leaves it deleted. |
| Storage.RedisStorage.DoMultiRead | src/Kdyby/Redis/RedisStorage.php:346-357 | doMultiRead answers for exactly the asked keys, each with the processed value its entry key holds, or nothing when the key is missing. |
| Storage.RedisStorage.MultiRead | src/Kdyby/Redis/RedisStorage.php:105-116 | multiRead answers for exactly the asked keys, in one pass over the distinct keys from a single snapshot. The answers and the new keyspace are ReadRun of the old keyspace. A non-NULL answer is that key's snapshot payload, and its verify succeeded where the loop reached it. Values are only deleted. |
| Storage.RedisStorage.ReadOne | src/Kdyby/Redis/RedisStorage.php:108-113 | One round of multiRead: the new keyspace and the value are ReadOneRun of the old keyspace. A missing entry gives NULL and changes nothing. A non-NULL value is the snapshot's payload, and that entry verified. |
| Storage.RedisStorage.ReadEach | src/Kdyby/Redis/RedisStorage.php:107-113 | The loop of multiRead: the answers and the keyspace it leaves are ReadRun from the keyspace it started in, with the snapshot taken by the MGET. |
| Storage.RedisStorage.ReadNext | src/Kdyby/Redis/RedisStorage.php:109-112 | One round of the loop: the new keyspace and the value are ReadOneRun of the keyspace the round starts in. What the loop has established for the keys before it (the answered keys, values read from the snapshot, values only deleted, and the remaining ReadRun) extends to one key more. |
| Storage.RedisStorage.Lock | src/Kdyby/Redis/RedisStorage.php:163-168 | With locking off nothing happens and the call succeeds. Otherwise the client's lock acquires the entry key, as the lease lock specification says. |
| Storage.RedisStorage.Unlock | src/Kdyby/Redis/RedisStorage.php:176-181 | With locking off nothing changes. Otherwise the client's lock releases the entry key. |
| Storage.RedisStorage.BuildMeta | src/Kdyby/Redis/RedisStorage.php:197-220 | The metadata carries the write stamp, the expiries from the dependencies, each dependent item once with its current stamp, and the callbacks. |
| Storage.RedisStorage.Write | src/Kdyby/Redis/RedisStorage.php:195-252 | Tags or a priority without a journal fail with InvalidStateException and change nothing. With one, the journal's keys afterwards record the entry's tags and priority as Journal.Recorded states. A failing SET, or an expiration Redis refuses, fails and leaves no entry. A success stores the envelope under the entry key, with a TTL exactly when an expiration was given. On the storage's server only the entry and its lease keys change outside the journal namespace. A journal on another server changes only its own namespace. |
| Storage.RedisStorage.Record | src/Kdyby/Redis/RedisStorage.php:226-229 | The journal's part of write: the journal ends as Journal.EntryWritten for the entry key and the given tags and priority. |
| Storage.RedisStorage.Save | src/Kdyby/Redis/RedisStorage.php:238-251 | A successful SET or SETEX stores the envelope, with a TTL exactly when an expiration was given, and releases the lock. It succeeds exactly when no client failure occurs and the TTL, if any, is positive. A failure, including Redis refusing the TTL, removes the entry and turns into InvalidStateException with the error's message. Only the entry key and its lease keys change. |
| Storage.RedisStorage.Clean | src/Kdyby/Redis/RedisStorage.php:275-295 | With Cache::ALL no storage key is left and other keys outside the journal are kept, and values are only deleted. The clean then fails with the journal's client error exactly when the journal has no key left to delete. With a journal whose index holds only cache keys, a conditional clean has the journal select, un-index and delete the entries as Cleaned describes. Without a journal it changes nothing. |
| LegacyStorage.EntryKey | RedisStorage.php:277-280 | The entry key is the storage namespace and a colon followed by the key, with every NUL namespace separator turned into a colon. It never holds a NUL. |
| LegacyStorage.MetaKey | RedisStorage.php:266-269 | The metadata key is the entry key followed by ":meta", so the two keys of an entry never coincide. |
| LegacyStorage.MetaKeyCollides | RedisStorage.php:266-280 | The entry key of a cache key ending in ":meta" is the metadata key of the shorter key. |
| LegacyStorage.MetaAt | RedisStorage.php:289-297 | readMeta finds metadata exactly when the metadata key holds a truthy string, and the metadata is that string decoded. |
| LegacyStorage.KeptMeta | RedisStorage.php:124 | If the database only lost values, metadata still found is what it was. |
| LegacyStorage.RecordOneMore | RedisStorage.php:171-175 | Each round of write's item loop records a new name with its current stamp, or keeps a repeated name in its first place. |
| LegacyStorage.RecordsSlice | RedisStorage.php:171-175 | The recorded items for the first names plus one are those for one more prefix of the names. |
| LegacyStorage.Removed | RedisStorage.php:221-227 | remove deletes exactly the entry key and the metadata key of each given key. |
| LegacyStorage.RePrefixedKeys | RedisStorage.php:242-244 | clean with Cache::ALL hands full storage keys back to remove, which prefixes them again. So every key it deletes begins with the storage prefix twice. |
| LegacyStorage.EntryKeyOfPrefixed | RedisStorage.php:277-280 | The entry key of a key that already has the storage prefix has that prefix twice. |
| LegacyStorage.RedisStorage.constructor | RedisStorage.php:60-64 | The storage talks to the given server and journal. |
| LegacyStorage.RedisStorage.ReadMeta | RedisStorage.php:289-297 | readMeta returns the decoded metadata, if the metadata key holds any. |
| LegacyStorage.RedisStorage.Remove | RedisStorage.php:221-227 | remove deletes both keys of the entry. |
| LegacyStorage.RedisStorage.Verify | RedisStorage.php:101-130 | The new keyspace and the result are those of LegacyStorage.VerifyRun from the old keyspace. By LegacyStorage.VerifyRunPasses, verify succeeds exactly when the entry has not expired, its callbacks hold, and every dependent item, read where verify reaches it, keeps its recorded stamp and, when it has metadata, verifies in turn. Values are only deleted, and a failure deletes both keys of the entry. |
| LegacyStorage.RedisStorage.CheckEntry | RedisStorage.php:104-114 | The first checks of verify fail exactly when the entry has expired or its callbacks do not hold. The keyspace afterwards is Touched of the old one: a non-zero sliding expiry is sent as EXPIRE on both keys, and nothing else changes. |
| LegacyStorage.RedisStorage.VerifyItem | RedisStorage.php:117-121 | One dependent item: the new keyspace and the outcome are ItemRun of the old keyspace. An item whose current stamp differs from the recorded one fails, one without metadata passes, and one with metadata must verify in turn. |
| LegacyStorage.WriteThenRead | RedisStorage.php:155-212 | Under a sound codec, the metadata and payload that write stores are found again by readMeta and get. When the entry is unexpired, its callbacks hold and its dependent items pass, it passes verify and unpacks to the written data. |
| LegacyStorage.MissingItemPasses | RedisStorage.php:119 | A dependent item that had no metadata at write time and still has none passes verify's item check. |
| LegacyStorage.Touched | RedisStorage.php:104-106 | verify's sliding-expiry step on the entry's two keys only deletes values (a negative EXPIRE removes them). A positive delta keeps every value, and without a non-zero delta nothing changes. |
| LegacyStorage.ItemsRunPasses | RedisStorage.php:116-122 | verify's item loop gets through exactly when each dependent item, read in the keyspace the items before it left, keeps its recorded stamp and, when it has metadata, verifies in turn. |
| LegacyStorage.VerifyRunPasses | RedisStorage.php:101-130 | A run of verify succeeds exactly when the entry has not expired, its callbacks hold and every dependent item verifies where verify reaches it (Verified). |
| LegacyStorage.ReadRun | RedisStorage.php:75-90 | A read without metadata answers NULL and changes nothing. Otherwise verify runs, and on success the payload key is read in the keyspace verify left. |
| LegacyStorage.StoredKeys | RedisStorage.php:221-227 | An entry's two keys, the entry key and the metadata key, both outside the journal namespace. |
| LegacyStorage.SaveOverRecord | RedisStorage.php:186-211 | Storing the entry on the journal's own server keeps what the journal recorded for it and for the other entries. Only the entry's two keys and the journal's write keys differ from before the write. |
| LegacyStorage.RemovedOutside | RedisStorage.php:221-227 | Every key remove deletes lies outside the journal namespace. |
| LegacyStorage.CleanedThenRemoved | RedisStorage.php:253-257 | On a journal that shares the storage's server, what a conditional clean left in the journal's index survives the deletion of the cleaned entries' keys. Afterwards only LegacyJournal.CleanKeys changed inside the journal namespace, and only the cleaned entries' keys outside it. |
| LegacyStorage.CleanedInside | RedisStorage.php:253-257 | A conditional clean changes a journal's server only inside the journal namespace. |
| LegacyStorage.RedisStorage.Read | RedisStorage.php:75-90 | The new keyspace and the answer are LegacyStorage.ReadRun of the old keyspace. Without metadata the result is NULL and nothing changes. A non-NULL answer comes from an entry with metadata whose verify succeeded, so it has not expired, its callbacks hold and its dependent items verified. Values are only deleted, and a NULL answer for an entry with metadata leaves both its keys deleted. |
| LegacyStorage.RedisStorage.BuildMeta | RedisStorage.php:157-180 | The metadata carries the write stamp, the expiries from the dependencies, each dependent item once with its current stamp, and the callbacks. |
| LegacyStorage.RedisStorage.Write | RedisStorage.php:155-212 | Tags or a priority without a journal fail with InvalidStateException and change nothing. With one, the journal afterwards records the raw key's tags and priority (LegacyJournal.Written) and keeps the other entries' list positions and scores. A failing store, or an expiration Redis refuses, deletes both keys and fails. A success stores the encoded metadata and the payload, both with a TTL exactly when an expiration was given, and under a sound codec they read back as the metadata and the data. Only the entry's two keys change, plus the journal's write keys when the journal shares the server. |
| LegacyStorage.RedisStorage.Record | RedisStorage.php:182-187 | The journal's part of write: the journal records the raw key's tags and priority, and changes only LegacyJournal.WriteFrame's keys. |
| LegacyStorage.RedisStorage.Save | RedisStorage.php:189-211 | A successful store leaves the encoded metadata and the payload readable, with the TTL of the expiration. It succeeds exactly when no client failure occurs and the TTL, if any, is positive. A failure, including Redis refusing the TTL, deletes both keys and turns into InvalidStateException. Only the entry's two keys change. |
| LegacyStorage.RedisStorage.StoreBoth | RedisStorage.php:197-206 | The metadata and the payload are stored under their keys, each with a TTL exactly when an expiration is given. A TTL that is not positive is refused by the first SETEX, with Redis's error and no change. Only the entry's two keys change. |
| LegacyStorage.RedisStorage.Clean | RedisStorage.php:238-258 | With Cache::ALL both re-prefixed keys of every storage key are gone, every other key outside the journal is kept, and the journal's namespace is emptied. With a journal, a conditional clean deletes both keys of every entry the journal selects. The journal's index ends as LegacyJournal.IndexCleaned states. Only the selected entries' two keys change outside the journal namespace, and only LegacyJournal.CleanKeys inside it. Without a journal it changes nothing. |
| LegacyStorage.RedisStorage.CleanEverything | RedisStorage.php:241-249 | clean(ALL): both re-prefixed keys of every storage key are deleted, nothing else outside the journal namespace changes, and no journal key is left. |
| LegacyStorage.RedisStorage.CleanFound | RedisStorage.php:253-257 | A conditional clean with a journal: the selected entries lose both keys. The journal's index ends as LegacyJournal.IndexCleaned states. Outside the journal namespace only those entries' keys change, and inside it only LegacyJournal.CleanKeys. |
| LegacyStorage.RedisStorage.RemoveAll | RedisStorage.php:242-244 | Both keys of each listed key are deleted, and nothing else. |
| Session.FormatKey | src/Kdyby/Redis/RedisSessionHandler.php:230-233 | A session key is the session namespace followed by the id. |
| Session.FormatKeyInjective | src/Kdyby/Redis/RedisSessionHandler.php:230-233 | Distinct ids have distinct session keys. |
| Session.PositiveMin | src/Kdyby/Redis/RedisSessionHandler.php:88 | The smaller of the positive options, and 0 when neither is positive. The result is positive exactly when one of the options is, and it is one of them. |
| Session.TtlOf | src/Kdyby/Redis/RedisSessionHandler.php:83-102 | A memoised lifetime is answered as it is. Otherwise, with a bound session, the lifetime succeeds exactly when one of cookie_lifetime and gc_maxlifetime is positive and is the smaller positive one. Without a session it is php.ini's gc_maxlifetime. A lifetime that is not positive fails with InvalidArgumentException. |
| Session.UnlockOneMore | src/Kdyby/Redis/RedisSessionHandler.php:183-185 | Each round of close's loop releases one more recorded lease. Whether or not it was still held, only that lease's keys change. |
| Session.UnlockedIdle | src/Kdyby/Redis/RedisSessionHandler.php:183-185 | Releasing a key no longer held changes nothing, and close's progress still holds. |
| Session.UnlockedHeld | src/Kdyby/Redis/RedisSessionHandler.php:183-185 | Releasing a held key forgets it, deletes its timeout key, and hands back its token if it was still running. Close's progress then holds for one more key. |
| Session.FootprintGrows | src/Kdyby/Redis/RedisSessionHandler.php:183-185 | The keys close may write grow by the two lock keys of each released lease. |
| Session.ReleaseKeepsDone | src/Kdyby/Redis/RedisSessionHandler.php:183-185 | Releasing one lease leaves the lock keys of leases released before unchanged. |
| Session.SessionOutsideLocks | src/Kdyby/Redis/RedisSessionHandler.php:183-185 | No session key of an id without a colon is a lock key of a session key. |
| Session.SuffixedIsNotId | src/Kdyby/Redis/RedisSessionHandler.php:230-233 | A session key of an id without a colon is never a session key followed by a colon suffix. |
| Session.LockKeepsSession | src/Kdyby/Redis/RedisSessionHandler.php:209-221 | Taking a lease on a session key never alters the data stored under that key. |
| Session.RedisSessionHandler.constructor | src/Kdyby/Redis/RedisSessionHandler.php:59-62 | The handler starts with no locked sessions, no bound session and no memoised lifetime. |
| Session.RedisSessionHandler.Bind | src/Kdyby/Redis/RedisSessionHandler.php:71-76 | Later lifetimes derive from the bound session's options. Nothing else changes. |
| Session.RedisSessionHandler.GetTtl | src/Kdyby/Redis/RedisSessionHandler.php:83-102 | getTtl answers as TtlOf says, and memoises the lifetime when it succeeds. |
| Session.RedisSessionHandler.SetTtl | src/Kdyby/Redis/RedisSessionHandler.php:109-112 | The memo becomes the lifetime with a negative value raised to 0, and getTtl answers it from then on. |
| Session.RedisSessionHandler.Lock | src/Kdyby/Redis/RedisSessionHandler.php:209-221 | The lease on the session key is acquired as the lease lock specification says. On success the id is recorded with its key. A LockException becomes a SessionHandlerException for the id and records nothing. |
| Session.RedisSessionHandler.Read | src/Kdyby/Redis/RedisSessionHandler.php:133-136 | read locks the session as lock does. On success it answers the data stored before the call, or the empty string when there is none. |
| Session.RedisSessionHandler.Write | src/Kdyby/Redis/RedisSessionHandler.php:145-152 | An id this handler has not locked is refused with FALSE and changes nothing. Otherwise the data is stored under the session key with the lifetime getTtl answers, and only that key changes. A failing getTtl changes nothing. A lifetime of 0, left by setTtl(0), is refused by Redis and the client error propagates with nothing stored. |
| Session.RedisSessionHandler.Destroy | src/Kdyby/Redis/RedisSessionHandler.php:161-174 | Only a locked session is destroyed, and the result says whether it was. Its key is deleted and its lease released, and nothing happens otherwise. |
| Session.RedisSessionHandler.Close | src/Kdyby/Redis/RedisSessionHandler.php:181-189 | Every recorded lease is released and the record emptied, and the result is TRUE. The data of every session is left alone. |
| Resp.CommandName | RedisClient.php:361 | The command as sent is upper-cased with every underscore written as a space, so it holds no underscore. |
| Resp.FramesSnoc | RedisClient.php:363-365 | Each round of buildMessage's loop appends the frame of one more item. |
| Resp.GetLine | RedisClient.php:406 | stream_get_line finds nothing exactly at the end of the input, and otherwise always consumes input. |
| Resp.ReadLineOf | RedisClient.php:404-428 | readLine never consumes more than its input, and a line it returns always consumed some. |
| Resp.Take | RedisClient.php:446-453 | fread returns a prefix of the input, as many bytes as asked or all that is left, and none for a count below 1. |
| Resp.TakeMore | RedisClient.php:449-453 | Reading n bytes and then m more reads the first n + m bytes, so the chunked loop reads what one fread would. |
| Resp.ReadBulkConsumes | RedisClient.php:438-461 | readResponse consumes exactly the bytes it reads and returns them. It fails with "Timeout" exactly when it owes bytes and reads a falsy buffer. |
| Resp.ReadBulkOf | RedisClient.php:438-461 | Given the bytes a read takes and the rest, readResponse returns those bytes or fails with "Timeout" as above. |
| Resp.Parse | RedisClient.php:376-395 | parseResponse never consumes more than its input. |
| Resp.Items | RedisClient.php:387-391 | The nested replies of a multi-bulk never consume more than their input, and there are exactly as many as the count announces (none for a count below 1). |
| Resp.Receive | RedisClient.php:311-312 | Reading a reply never consumes more than its input. |
| Resp.LineOf | RedisClient.php:406 | A line without a CR that fits within the 4096-byte limit is read whole, and its CRLF is consumed. |
| Resp.ReadsLine | RedisClient.php:404-428 | A truthy line is read as its head, or on a reply's first line its exception is raised. |
| Resp.FrameReads | RedisClient.php:364 | One framed item reads back as a bulk line and then a bulk reply holding exactly that item. |
| Resp.BulkReads | RedisClient.php:382-384 | A bulk line announcing an item's length reads exactly that item back, CRLF dropped. |
| Resp.BulkTake | RedisClient.php:383 | Reading the announced length plus two takes the bulk and its CRLF. |
| Resp.BulkOf | RedisClient.php:382-384 | After a bulk line the reply is the announced bytes plus CRLF with the last two bytes dropped, or the read's failure. |
| Resp.Bulks | RedisClient.php:382-384 | The bulk replies of a list of items, one per item and in order. |
| Resp.ItemsOfFrames | RedisClient.php:386-391 | Framed items read back as nested replies are bulks holding exactly those items, and reading stops at their end. |
| Resp.FramesStep | RedisClient.php:389-391 | The first framed item reads back as a bulk in front of the others. |
| Resp.RequestRoundTrip | RedisClient.php:359-395 | A request read back as a reply is the multi-bulk of the command name and the arguments, whatever bytes the arguments hold, and reading stops exactly at its end. |
| Resp.CountLine | RedisClient.php:362 | The count line of a request reads back as a multi-bulk head with that count. |
| Resp.CountParse | RedisClient.php:386-391 | After its count line, a multi-bulk of framed items parses as those items' bulks. |
| Resp.ErrorsRaiseOnlyFirst | RedisClient.php:415-427 | An error line raises its message when it starts a reply, and is a value inside a multi-bulk reply. |
| Resp.NullReply | RedisClient.php:379-380 | A reply whose first line reads as -1 is null, whatever its type, and nothing after the line is read. |
| Resp.NullParse | RedisClient.php:379-380 | A head whose text reads as -1 parses as null and consumes nothing more. |
| Resp.NullLine | RedisClient.php:404-428 | A "-1" line of any known type reads as that head. |
| Resp.ReceiveStep | RedisClient.php:311-312 | A reply whose first line reads as a head is what parseResponse reads after that head. |
| Resp.LineFails | RedisClient.php:390 | A nested reply whose line fails fails the whole multi-bulk reply. |
| Resp.ItemFails | RedisClient.php:390 | A nested reply that fails after its line fails the whole multi-bulk reply. |
| Resp.ItemsNone | RedisClient.php:389 | With no nested replies left, the replies read so far are the result. |
| Resp.MultiOf | RedisClient.php:386-391 | After a multi-bulk line the reply is the multi-bulk of the nested replies it announces, or their failure. |
| Resp.ItemsMore | RedisClient.php:389-391 | Each round of parseResponse's loop reads one more nested reply and keeps the overall result the same. |
| Resp.ItemsStep | RedisClient.php:389-391 | A multi-bulk's replies are its first nested reply in front of the rest. |
| Resp.Attempts | RedisClient.php:302 | exec and discard are tried once, every other command MAX_ATTEMPTS (3) times. |
| Resp.CommandWords | RedisClient.php:302 | info and multi are tried MAX_ATTEMPTS times, exec and discard once. |
| Resp.DeliverAttempts | RedisClient.php:302-334 | send returns the reply of the first attempt that succeeds, or the error of the last when none does. The message is written once per attempt, at least once and at most the allowed number of times, with a reconnect before every attempt after the first. |
| Resp.DeliverNext | RedisClient.php:303-324 | After a failed first attempt, what holds of the rest of send holds of all of it. |
| Resp.DeliverFirst | RedisClient.php:303-324 | When the first attempt succeeds or is the only one allowed, send ends with it. |
| Resp.DeliverAgain | RedisClient.php:304-308 | When the first attempt fails and more are allowed, send goes on over the next connection. |
| Resp.StreamShift | RedisClient.php:304-308 | After a reconnect, the k-th connection is the one that was k+1-th before it. |
| Resp.SuccessShift | RedisClient.php:303-324 | A first success found after a failed first attempt is the first success of the whole send. |
| Resp.WrittenShift | RedisClient.php:303-324 | The writes of the rest of send, preceded by the first attempt's, are the writes of the whole send. |
| Resp.InfoKeys | RedisClient.php:474-489 | The INFO answer has a key exactly for the keys of the rows that are not skipped (falsy rows and # section headers). |
| Resp.InfoUniqueKey | RedisClient.php:479-488 | A key that only one row carries is answered with that row's own value: its text, or its name=value pairs when it holds a comma. |
| Resp.Connection.constructor | RedisClient.php:226-232 | The connection starts with the given input and later connections, nothing written and no reconnects. |
| Resp.Connection.BuildMessage | RedisClient.php:359-367 | buildMessage frames the command name and the arguments as a multi-bulk message. |
| Resp.Connection.ReadLine | RedisClient.php:404-428 | readLine answers as ReadLineOf and consumes what it reads. |
| Resp.Connection.Fread | RedisClient.php:446 | fread returns the first bytes of the input and consumes exactly them. |
| Resp.Connection.ReadResponse | RedisClient.php:438-461 | readResponse answers as ReadBulk and consumes exactly the bytes it reads. |
| Resp.Connection.ReadChunks | RedisClient.php:444-454 | The chunked loop reads the first length bytes, in chunks of at most MAX_BUFFER_SIZE, and consumes exactly them. |
| Resp.Connection.ParseResponse | RedisClient.php:376-395 | parseResponse answers as Parse and consumes what it reads. |
| Resp.Connection.ParseItems | RedisClient.php:387-391 | The loop reads exactly the nested replies Items describes. |
| Resp.Connection.ParseNext | RedisClient.php:389-390 | One pass of that loop: a failing line or nested reply ends the multi-bulk reply with that error, and a nested reply read keeps the items read so far in front of what the rest yields. |
| Resp.Connection.Reconnect | RedisClient.php:262-267 | close and connect move to the next connection and count one reconnect. |
| Resp.Connection.Attempt | RedisClient.php:345-349 | One attempt writes the message and reads one reply. |
| Resp.Connection.Send | RedisClient.php:288-335 | send lower-cases the command, frames it, and tries it as Deliver describes, with the number of attempts Attempts gives. |
| Resp.Connection.Info | RedisClient.php:471-496 | info sends INFO and parses its text into the answer InfoOf gives, or the value under one key (NULL when absent). A failing send fails info. |
| Resp.Connection.ParseInfo | RedisClient.php:474-489 | The loop over the rows builds exactly InfoOf of the rows. |
| Resp.Connection.ParsePairs | RedisClient.php:485-488 | The loop over a row's items adds its name=value pairs in order, a later name overriding an earlier one. |
| Resp.Connection.Exec | RedisClient.php:537-544 | exec is tried once. A null answer becomes TransactionException, and any other answer is returned. |
| Resp.Connection.Multi | RedisClient.php:508-529 | multi opens the transaction. Without a callback its answer is returned. A RedisClientException from the callback or from exec, including a TransactionException or a LockException, is rethrown as it is and nothing more is sent. Any other exception first sends DISCARD, whose own failure wins. A completing callback returns exec's answer. |
| Resp.AbortedExec | RedisClient.php:537-544 | An EXEC answered by a null multi-bulk reads as null after writing only EXEC, so exec throws TransactionException, which is a RedisClientException that multi rethrows without DISCARD. |

## Left out

- The transport: sockets, the phpredis driver and connection errors are not modelled. A
  command either applies its transition to the keyspace or, where the source catches a
  `RedisClientException`, the failure is an `Option<string>` parameter (`failure`) or a
  reply value given as input.
- The bodies of the Lua scripts of the script journal. `evalScript` leaves the keyspace
  as it is, and the script's reply is an input. Only the PHP side is modelled.
- `MULTI`/`EXEC` in the storage and the session handler: the commands inside a transaction
  are applied one after another. No other process can interleave, so this has the same
  effect as the atomic transaction. `destroy`'s transaction always commits.
- Blocking `BLPOP`: how a wait ends (another process pushed a token, the timeout elapsed,
  the client failed) is a `Store.Wait` parameter.
- LegacyLock.Polling: the polling loop of the first-generation lock reads the clock once
  per round from a finite sequence of readings. It ends as `Waiting` when the readings run
  out, where the source would go on polling.
- Storage.RedisStorage.Verify: the recursive check of dependent items is bounded by a
  `fuel` argument. A dependent item still to verify when the fuel runs out fails the
  verification. The same holds for LegacyStorage.RedisStorage.Verify.
- md5, JSON, `serialize`, `Cache::checkCallbacks`, `microtime()` and `time()` are
  uninterpreted functions or parameters. The JSON round trip, NUL-free JSON output and the
  `serialize` round trip are hypotheses (`Storage.Sound`).
- PHP 7 semantics are assumed. `array_sum` over the hex digest counts only its decimal
  digits. `array_merge` with a NULL argument yields NULL. `(int)` is `Strings.ParseInt`.
- Pool.ShardIndex: the modulo by the number of local clients is undefined for an empty
  pool. Every member that picks a shard requires a non-empty local pool, where PHP 7
  throws DivisionByZeroError. The same holds for Pool.ClientsPool.Choose and the routers.
- Journal.RedisJournal.CleanBatchData: cleanBatchData skips falsy tags (`""` and `"0"`),
  so an entry stays listed under such a tag. This is modelled as written. The symmetry
  results therefore assume `Journal.TagsTruthy`. The storage results that rely on the
  index holding only cache keys assume `Journal.EntriesOutside`.
- Storage.RedisStorage.Clean: the `del` of the list returned by the journal never runs,
  because a journal serving a RedisStorage always returns an empty list. It is left out.
- Expiry: Redis drops a key as soon as its deadline has passed. The model drops expired
  keys only at explicit `Server.Redis.Tick` steps (`Store.Evict`), so between two such
  steps a key past its deadline stays readable. Every member that reads the keyspace
  speaks of the keyspace as it is when it runs; a caller that wants Redis's view at `now`
  ticks first. LockSpec.CrashedLeaseLapses and Storage.EntryExpires state what a tick
  does to a lease and to a cache entry.
- LuaJournal.ScriptFailure: the client's `getLastError()` text appended to the message is
  not modelled. The message is the fixed prefix and the operation's name.
- The journal of a `RedisStorage` is always the set-based `Journal.RedisJournal`. The
  script journal is modelled on its own, and so is the sharded journal router.
- StorageRouting.StorageRouter: `read`, `lock`, `write` and `remove` call a
  `chooseClient` method that `ClientsPool` does not define
  (src/Kdyby/Redis/StorageRouter.php:40,48,56,64), so as written each call fails. The
  model routes through `ClientsPool::choose`, the pool's only way to pick a client.
- JournalRouting.JournalRouter.Write: `write` calls the same undefined `chooseClient`
  (src/Kdyby/Redis/JournalRouter.php:40), so as written it fails too. The model routes it
  through `ClientsPool::choose` as well.
- StorageRouting.StorageRouter.Bind: `RedisStorage::$client`, `RedisStorage::$journal`
  and `RedisLuaJournal::$client` are private (src/Kdyby/Redis/RedisStorage.php:46,51 and
  src/Kdyby/Redis/RedisLuaJournal.php:40). The routers assign properties of those names
  from the subclass and never call the parent constructor, so in PHP the inherited
  methods would not see the chosen client. The model runs the inherited code with the
  chosen client, as the routers evidently intend. The same holds for
  JournalRouting.JournalRouter.
- StorageRouting.StorageRouter.Clean: with a journal, a conditional clean's effect on
  each shard is not stated. Only the `Cache::ALL` result, the failure case and the
  no-journal case are. When a shard's clean fails, the shards after it are left as they
  were, and the contract says nothing about them. The sharded storage's journal is the
  set-based `Journal.RedisJournal`, where the source accepts only a `JournalRouter`
  (src/Kdyby/Redis/StorageRouter.php:31), whose script clean never sends a `del` without
  keys. So with a journal and two or more clients, a full clean fails at the second client
  in the model only: the first client's clean has already emptied the journal. In the
  source every client is cleaned. The inherited `unlock` and `multiRead` of the sharded
  storage are not modelled.
- Redis type errors: a command on a key that holds another type answers `WRONGTYPE` in
  Redis. In the model a write replaces the key with a value of its own type, and a read
  answers as if the key were missing (no string, the empty set, list or sorted set). The
  keys of different roles can collide. For example `Storage.FormatEntryKey("a:lock")` is
  the key `LockSpec.LockKey(Storage.FormatEntryKey("a"))`, so an entry named `a:lock`
  shares its key with the lease of the entry `a`. Where Redis would answer that collision
  with an error, the model overwrites or reads empty.
- Journal.DelWithoutKeys: the message of the client error raised for a `del` with no keys
  is taken to be phpredis's argument-count warning, which `RedisClient::send` turns into a
  `RedisClientException`. Only the fact of the failure and that nothing changes are
  relied on.
- LegacyStorage.RedisStorage.Write: the `mSet` of the metadata and the payload is two
  `SET`s. With no interleaving the effect is the same.
- Session handler: `open` and `gc` only answer TRUE and are not modelled. `bind` does not
  register the handler with PHP. A `GET` of a key holding another type answers the empty
  string. `close` releases the leases in no particular order, which the model leaves
  unspecified.
- Connections.Driver: a connection driver is an opaque identifier.
- The root `RedisSessionHandler.php`, the `DI` extension and the debugger `Panel` are not
  part of this model.
- Resp: reconnecting always succeeds. Neither `close`'s `releaseAll` nor `connect`'s
  `SELECT` of the database is modelled. Nor is the panel and debugger logging in `send`.
- Resp.Connection.Fread: a short read happens only at the end of the input.
- Resp.Parse: `substr` of a bulk shorter than two bytes is approximated as the empty
  string. The null test compares the line's integer prefix with -1, as `(int)` would.
  PHP 7's `==` compares a numeric string as a number, so a line such as `-1.5` or `-1e3`
  reads as null in the model but not in PHP. A line such as `-1.0` or `-1abc` reads as
  null in both.
- Resp.Connection.Info: a comma row under a key that already holds plain text extends an
  empty set of pairs, where PHP would write into the string. A multi-bulk reply to
  `INFO` parses as no rows.
- Resp.RequestRoundTrip: it requires that every length of the request fit on one line
  of at most 4096 bytes, the limit `stream_get_line` is given.
- Resp.Connection.Multi: the commands the callback itself sends are not modelled. The
  callback either completes or throws a given exception.
- LockSpec.Release: release reads the clock twice (src/Kdyby/Redis/ExclusiveLock.php:133
  and 138). The model reads it once, as `now`. A lease whose deadline passes between the
  two readings gets its token back yet answers FALSE in PHP; the model cannot show that.
- Locks.ExclusiveLock.IncreaseLocksTimeout: PHP walks the local map in insertion order
  and stops at the first failure. The model renews the leases in an unspecified order, so
  a failure is the error of some failing lease, not necessarily the first inserted one.
  The same holds for Locks.ExclusiveLock.ReleaseAll, where the order does not matter.
- Locks.ExclusiveLock: `setClient` is not modelled, because the lock's connection is
  fixed when it is created. `__destruct`, which calls `releaseAll` on garbage collection,
  is not modelled either. An explicit `Client.RedisClient.Close` is. The same holds for
  the first-generation lock's `__destruct`.
- LegacyStorage.RedisStorage.Clean: with `Cache::ALL` the keys that `KEYS` lists are
  handed back to `remove`, which prefixes them a second time. This is modelled as
  written, and LegacyStorage.RePrefixedKeys states which keys it can reach.
