/**
 * The set-based invalidation journal (`Kdyby\Redis\RedisJournal`). For every cache key it
 * keeps the set of its tags and, for every tag, the set of its keys; priorities live in one
 * sorted set. All of it sits under the `Nette.Journal:` namespace.
 */
module Journal {
  import opened Wrappers
  import opened Strings
  import opened Seqs
  import Store
  import Server

  const Prefix: string := "Nette.Journal:"
  /** `RedisStorage::NS_NETTE`, whose keys a full clean also removes when the storage is a RedisStorage. */
  const StoragePrefix: string := "Nette.Storage:"
  const BatchSize: nat := 8000
  /**
   * The message of the `RedisClientException` a `del` without keys raises: the phpredis
   * client refuses the call, before anything is sent, with a warning that `send` turns into
   * an exception.
   */
  const DelWithoutKeys: string := "Wrong parameter count for Redis::del()"

  /** The value under `Cache::TAGS`: absent, one scalar, or an array. */
  datatype TagsValue = NoTags | Scalar(tag: string) | TagArray(tags: seq<string>)

  /** `empty($v) ? [] : (array)$v`; a scalar "" or "0" counts as empty. */
  function TagList(v: TagsValue): (r: seq<string>)
    ensures v.Scalar? && !Empty(v.tag) ==> r == [v.tag]
    ensures v.TagArray? ==> r == v.tags
    ensures v.NoTags? || (v.Scalar? && Empty(v.tag)) ==> r == []
  {
    match v
    case NoTags => []
    case Scalar(t) => if Empty(t) then [] else [t]
    case TagArray(ts) => ts
  }

  /** The dependencies a cache entry is written with. */
  datatype Deps = Deps(tags: TagsValue, priority: Option<int>)

  /** The conditions of a clean: `Cache::ALL`, `Cache::TAGS`, `Cache::PRIORITY`. */
  datatype Conds = Conds(all: bool, tags: TagsValue, priority: Option<int>)

  /** PHP truthiness of a string. */
  predicate Truthy(s: string) {
    !Empty(s)
  }

  /** formatKey: the namespace, the key, and `:suffix` only when the suffix is truthy. */
  function FormatKey(key: string, suffix: string): (r: string)
    ensures Prefix <= r
    ensures Truthy(suffix) ==> r == (Prefix + key) + (":" + suffix)
    ensures !Truthy(suffix) ==> r == Prefix + key
  {
    var r := Prefix + key + (if Truthy(suffix) then ":" + suffix else "");
    assert r[..|Prefix|] == Prefix;
    r
  }

  /** `<tag>:keys`, the entries of a tag */
  function TagKeys(tag: string): string {
    Prefix + tag + ":keys"
  }

  /** `<key>:tags`, the tags of an entry */
  function EntryTags(key: string): string {
    Prefix + key + ":tags"
  }

  /** `<key>:priority`, only ever deleted */
  function EntryPriority(key: string): string {
    Prefix + key + ":priority"
  }

  /** The sorted set of priorities. */
  function PriorityKey(): string {
    Prefix + "priority"
  }

  /** The four key names are formatKey with the suffixes "keys", "tags", "priority" and none. */
  lemma KeyNamesAreFormatted(x: string)
    ensures TagKeys(x) == FormatKey(x, "keys") && EntryTags(x) == FormatKey(x, "tags")
    ensures EntryPriority(x) == FormatKey(x, "priority") && PriorityKey() == FormatKey("priority", "")
  {
    assert ":" + "keys" == ":keys" && ":" + "tags" == ":tags" && ":" + "priority" == ":priority";
  }

  /** A key outside the journal namespace (the cache entries themselves). */
  predicate Outside(x: string) {
    !(Prefix <= x)
  }

  /** The four kinds of journal key never collide, and each kind is injective. */
  lemma KeysDistinct(a: string, b: string)
    ensures TagKeys(a) != EntryTags(b) && TagKeys(a) != EntryPriority(b) && EntryTags(a) != EntryPriority(b)
    ensures TagKeys(a) != PriorityKey() && EntryTags(a) != PriorityKey() && EntryPriority(a) != PriorityKey()
    ensures TagKeys(a) == TagKeys(b) ==> a == b
    ensures EntryTags(a) == EntryTags(b) ==> a == b
    ensures EntryPriority(a) == EntryPriority(b) ==> a == b
    ensures !Outside(TagKeys(a)) && !Outside(EntryTags(a)) && !Outside(EntryPriority(a)) && !Outside(PriorityKey())
  {
    KindsDiffer(a, b);
    if TagKeys(a) == TagKeys(b) {
      SuffixedInjective(a, b, ":keys");
    }
    if EntryTags(a) == EntryTags(b) {
      SuffixedInjective(a, b, ":tags");
    }
    if EntryPriority(a) == EntryPriority(b) {
      SuffixedInjective(a, b, ":priority");
    }
  }

  lemma KindsDiffer(a: string, b: string)
    ensures TagKeys(a) != EntryTags(b) && TagKeys(a) != EntryPriority(b) && EntryTags(a) != EntryPriority(b)
    ensures TagKeys(a) != PriorityKey() && EntryTags(a) != PriorityKey() && EntryPriority(a) != PriorityKey()
  {
    SuffixMismatch(Prefix + a, ":keys", Prefix + b, ":tags");
    SuffixMismatch(Prefix + a, ":keys", Prefix + b, ":priority");
    SuffixMismatch(Prefix + a, ":tags", Prefix + b, ":priority");
    SuffixMismatch(Prefix + a, ":keys", Prefix, "priority");
    SuffixMismatch(Prefix + a, ":tags", Prefix, "priority");
    assert |EntryPriority(a)| > |PriorityKey()|;
  }

  lemma SuffixedInjective(a: string, b: string, suffix: string)
    requires Prefix + a + suffix == Prefix + b + suffix
    ensures a == b
  {
    SuffixCancels(Prefix + a, Prefix + b, suffix);
    PrefixCancels(Prefix, a, b);
  }

  // ---------------------------------------------------------------------------------
  // Invariants of the index

  /** Tag membership is symmetric: a key is in `<tag>:keys` exactly when the tag is in `<key>:tags`. */
  ghost predicate Symmetric(db: Store.Db) {
    forall t, k :: k in Store.Members(db, TagKeys(t)) <==> t in Store.Members(db, EntryTags(k))
  }

  /** Every recorded tag is truthy (neither "" nor "0"). */
  ghost predicate TagsTruthy(db: Store.Db) {
    forall k, t :: t in Store.Members(db, EntryTags(k)) ==> Truthy(t)
  }

  /** The indexed keys are cache keys, outside the journal namespace. */
  ghost predicate EntriesOutside(db: Store.Db) {
    && (forall t, x :: x in Store.Members(db, TagKeys(t)) ==> Outside(x))
    && (forall x :: x in Store.Scores(db, PriorityKey()) ==> Outside(x))
  }

  /** No key a full clean would delete exists: the journal's, and for a RedisStorage the storage's. */
  ghost predicate NothingToWipe(db: Store.Db, redisStorage: bool) {
    Store.KeysWithPrefix(db, Prefix) == {} && (!redisStorage || Store.KeysWithPrefix(db, StoragePrefix) == {})
  }

  /** Keys outside the journal namespace are untouched. */
  ghost predicate JournalOnly(a: Store.Db, b: Store.Db) {
    forall x :: Outside(x) ==> Store.At(b, x) == Store.At(a, x)
  }

  lemma JournalOnlyTrans(a: Store.Db, b: Store.Db, c: Store.Db)
    requires JournalOnly(a, b) && JournalOnly(b, c)
    ensures JournalOnly(a, c)
  {
  }

  /** `b` is `a` with `key` taken out of the tag index. */
  ghost predicate Unindexed(a: Store.Db, b: Store.Db, key: string) {
    && Store.Members(b, EntryTags(key)) == {}
    && (forall t :: Store.Members(b, TagKeys(t)) ==
          if t in Store.Members(a, EntryTags(key)) then Store.Members(a, TagKeys(t)) - {key} else Store.Members(a, TagKeys(t)))
    && (forall k :: k != key ==> Store.Members(b, EntryTags(k)) == Store.Members(a, EntryTags(k)))
  }

  /** `b` is `a` with `key` added under every tag in `ts`, on both sides of the index. */
  ghost predicate Indexed(a: Store.Db, b: Store.Db, key: string, ts: set<string>) {
    && Store.Members(b, EntryTags(key)) == Store.Members(a, EntryTags(key)) + ts
    && (forall t :: Store.Members(b, TagKeys(t)) == Store.Members(a, TagKeys(t)) + (if t in ts then {key} else {}))
    && (forall k :: k != key ==> Store.Members(b, EntryTags(k)) == Store.Members(a, EntryTags(k)))
  }

  /** Un-indexing keeps the index symmetric and leaves the key under no tag. */
  lemma UnindexKeepsSymmetry(a: Store.Db, b: Store.Db, key: string)
    requires Symmetric(a) && Unindexed(a, b, key)
    ensures Symmetric(b)
    ensures forall t :: key !in Store.Members(b, TagKeys(t))
  {
    forall t, k
      ensures k in Store.Members(b, TagKeys(t)) <==> t in Store.Members(b, EntryTags(k))
    {
      assert k in Store.Members(a, TagKeys(t)) <==> t in Store.Members(a, EntryTags(k));
    }
  }

  /** Indexing a key under a set of tags on both sides keeps the index symmetric. */
  lemma IndexKeepsSymmetry(a: Store.Db, b: Store.Db, key: string, ts: set<string>)
    requires Symmetric(a) && Indexed(a, b, key, ts)
    ensures Symmetric(b)
  {
    forall t, k
      ensures k in Store.Members(b, TagKeys(t)) <==> t in Store.Members(b, EntryTags(k))
    {
      assert k in Store.Members(a, TagKeys(t)) <==> t in Store.Members(a, EntryTags(k));
    }
  }

  // ---------------------------------------------------------------------------------
  // What a change to one journal key leaves alone

  lemma TagKeyFrame(a: Store.Db, b: Store.Db, tag: string)
    requires Store.SameExcept(a, b, {TagKeys(tag)})
    ensures forall t :: t != tag ==> Store.At(b, TagKeys(t)) == Store.At(a, TagKeys(t))
    ensures forall k :: Store.At(b, EntryTags(k)) == Store.At(a, EntryTags(k))
    ensures forall k :: Store.At(b, EntryPriority(k)) == Store.At(a, EntryPriority(k))
    ensures Store.At(b, PriorityKey()) == Store.At(a, PriorityKey())
    ensures JournalOnly(a, b)
  {
    forall t | t != tag
      ensures Store.At(b, TagKeys(t)) == Store.At(a, TagKeys(t))
    {
      KeysDistinct(t, tag);
    }
    forall k
      ensures Store.At(b, EntryTags(k)) == Store.At(a, EntryTags(k))
      ensures Store.At(b, EntryPriority(k)) == Store.At(a, EntryPriority(k))
    {
      KeysDistinct(tag, k);
    }
    KeysDistinct(tag, tag);
  }

  lemma EntryKeysFrame(a: Store.Db, b: Store.Db, key: string)
    requires Store.SameExcept(a, b, {EntryTags(key), EntryPriority(key)})
    ensures forall t :: Store.At(b, TagKeys(t)) == Store.At(a, TagKeys(t))
    ensures forall k :: k != key ==> Store.At(b, EntryTags(k)) == Store.At(a, EntryTags(k))
    ensures forall k :: k != key ==> Store.At(b, EntryPriority(k)) == Store.At(a, EntryPriority(k))
    ensures Store.At(b, PriorityKey()) == Store.At(a, PriorityKey())
    ensures JournalOnly(a, b)
  {
    forall t
      ensures Store.At(b, TagKeys(t)) == Store.At(a, TagKeys(t))
    {
      KeysDistinct(t, key);
    }
    forall k | k != key
      ensures Store.At(b, EntryTags(k)) == Store.At(a, EntryTags(k))
      ensures Store.At(b, EntryPriority(k)) == Store.At(a, EntryPriority(k))
    {
      KeysDistinct(k, key);
      KeysDistinct(key, k);
    }
    KeysDistinct(key, key);
  }

  lemma PriorityKeyFrame(a: Store.Db, b: Store.Db)
    requires Store.SameExcept(a, b, {PriorityKey()})
    ensures forall t :: Store.At(b, TagKeys(t)) == Store.At(a, TagKeys(t))
    ensures forall k :: Store.At(b, EntryTags(k)) == Store.At(a, EntryTags(k))
    ensures forall k :: Store.At(b, EntryPriority(k)) == Store.At(a, EntryPriority(k))
    ensures JournalOnly(a, b)
  {
    forall k
      ensures Store.At(b, TagKeys(k)) == Store.At(a, TagKeys(k))
      ensures Store.At(b, EntryTags(k)) == Store.At(a, EntryTags(k))
      ensures Store.At(b, EntryPriority(k)) == Store.At(a, EntryPriority(k))
    {
      KeysDistinct(k, k);
    }
    KeysDistinct("", "");
  }

  /** The state of cleanEntry's loop: `key` taken out of the sets of the tags in `done` so far. */
  ghost predicate Unlinking(db0: Store.Db, db: Store.Db, key: string, done: set<string>) {
    && (forall t :: Store.Members(db, TagKeys(t)) ==
          (if t in done then Store.Members(db0, TagKeys(t)) - {key} else Store.Members(db0, TagKeys(t))))
    && (forall k :: Store.At(db, EntryTags(k)) == Store.At(db0, EntryTags(k)))
    && (forall k :: Store.At(db, EntryPriority(k)) == Store.At(db0, EntryPriority(k)))
    && Store.At(db, PriorityKey()) == Store.At(db0, PriorityKey())
    && JournalOnly(db0, db)
  }

  lemma UnlinkOneMore(db0: Store.Db, a: Store.Db, key: string, done: set<string>, tag: string)
    requires Unlinking(db0, a, key, done)
    ensures Unlinking(db0, Store.SRem(a, TagKeys(tag), {key}), key, done + {tag})
  {
    var b := Store.SRem(a, TagKeys(tag), {key});
    TagKeyFrame(a, b, tag);
  }

  /** The state of write's loop: `key` indexed under the tags in `ts` so far, on both sides. */
  ghost predicate Linking(db1: Store.Db, db: Store.Db, key: string, ts: set<string>) {
    && Store.Members(db, EntryTags(key)) == Store.Members(db1, EntryTags(key)) + ts
    && (forall t :: Store.Members(db, TagKeys(t)) ==
          Store.Members(db1, TagKeys(t)) + (if t in ts then {key} else {}))
    && (forall k :: k != key ==> Store.At(db, EntryTags(k)) == Store.At(db1, EntryTags(k)))
    && (forall k :: Store.At(db, EntryPriority(k)) == Store.At(db1, EntryPriority(k)))
    && Store.At(db, PriorityKey()) == Store.At(db1, PriorityKey())
    && JournalOnly(db1, db)
  }

  lemma LinkOneMore(db1: Store.Db, a: Store.Db, mid: Store.Db, b: Store.Db, key: string, ts: set<string>, tag: string)
    requires Linking(db1, a, key, ts)
    requires Store.Members(mid, TagKeys(tag)) == Store.Members(a, TagKeys(tag)) + {key}
    requires Store.SameExcept(a, mid, {TagKeys(tag)})
    requires Store.Members(b, EntryTags(key)) == Store.Members(mid, EntryTags(key)) + {tag}
    requires Store.SameExcept(mid, b, {EntryTags(key)})
    ensures Linking(db1, b, key, ts + {tag})
  {
    TagKeyFrame(a, mid, tag);
    assert Store.SameExcept(mid, b, {EntryTags(key), EntryPriority(key)});
    EntryKeysFrame(mid, b, key);
    LinkedTags(db1, a, mid, b, key, ts, tag);
    JournalOnlyTrans(a, mid, b);
    JournalOnlyTrans(db1, a, b);
  }

  /** The tag side of one round of write's loop: `key` joins the set of `tag` and no other. */
  lemma LinkedTags(db1: Store.Db, a: Store.Db, mid: Store.Db, b: Store.Db, key: string, ts: set<string>, tag: string)
    requires forall t :: Store.Members(a, TagKeys(t)) == Store.Members(db1, TagKeys(t)) + (if t in ts then {key} else {})
    requires Store.Members(mid, TagKeys(tag)) == Store.Members(a, TagKeys(tag)) + {key}
    requires forall t :: t != tag ==> Store.At(mid, TagKeys(t)) == Store.At(a, TagKeys(t))
    requires forall t :: Store.At(b, TagKeys(t)) == Store.At(mid, TagKeys(t))
    ensures forall t :: Store.Members(b, TagKeys(t)) == Store.Members(db1, TagKeys(t)) + (if t in ts + {tag} then {key} else {})
  {
    forall t
      ensures Store.Members(b, TagKeys(t)) == Store.Members(db1, TagKeys(t)) + (if t in ts + {tag} then {key} else {})
    {
      assert Store.Members(b, TagKeys(t)) == Store.Members(mid, TagKeys(t));
      if t != tag {
        assert Store.Members(mid, TagKeys(t)) == Store.Members(a, TagKeys(t));
      }
    }
  }

  /**
   * What cleanEntry leaves behind: `key` out of the tag index, its own tags and priority keys
   * gone, its score dropped, and nothing else touched.
   */
  ghost predicate EntryCleaned(a: Store.Db, b: Store.Db, key: string) {
    && Unindexed(a, b, key)
    && Store.At(b, EntryTags(key)) == None && Store.At(b, EntryPriority(key)) == None
    && Store.Scores(b, PriorityKey()) == Store.Scores(a, PriorityKey()) - {key}
    && (forall k :: k != key ==> Store.At(b, EntryPriority(k)) == Store.At(a, EntryPriority(k)))
    && JournalOnly(a, b)
  }

  /** The last two stages of cleanEntry: the DEL of the entry's keys and the ZREM of its score. */
  lemma DropEntryKeys(db1: Store.Db, db2: Store.Db, db3: Store.Db, key: string)
    requires Store.At(db2, EntryTags(key)) == None && Store.At(db2, EntryPriority(key)) == None
    requires Store.SameExcept(db1, db2, {EntryTags(key), EntryPriority(key)})
    requires Store.Scores(db3, PriorityKey()) == Store.Scores(db2, PriorityKey()) - {key}
    requires Store.SameExcept(db2, db3, {PriorityKey()})
    ensures Store.At(db3, EntryTags(key)) == None && Store.At(db3, EntryPriority(key)) == None
    ensures forall t :: Store.At(db3, TagKeys(t)) == Store.At(db1, TagKeys(t))
    ensures forall k :: k != key ==> Store.At(db3, EntryTags(k)) == Store.At(db1, EntryTags(k))
    ensures forall k :: k != key ==> Store.At(db3, EntryPriority(k)) == Store.At(db1, EntryPriority(k))
    ensures Store.Scores(db3, PriorityKey()) == Store.Scores(db1, PriorityKey()) - {key}
    ensures JournalOnly(db1, db3)
  {
    EntryKeysFrame(db1, db2, key);
    PriorityKeyFrame(db2, db3);
    JournalOnlyTrans(db1, db2, db3);
  }

  /** The three stages of cleanEntry: the tag loop, the DEL of the entry's keys, the ZREM. */
  lemma UnlinkThenDrop(db0: Store.Db, db1: Store.Db, db3: Store.Db, key: string)
    requires Unlinking(db0, db1, key, Store.Members(db0, EntryTags(key)))
    requires Store.At(db3, EntryTags(key)) == None && Store.At(db3, EntryPriority(key)) == None
    requires forall t :: Store.At(db3, TagKeys(t)) == Store.At(db1, TagKeys(t))
    requires forall k :: k != key ==> Store.At(db3, EntryTags(k)) == Store.At(db1, EntryTags(k))
    requires forall k :: k != key ==> Store.At(db3, EntryPriority(k)) == Store.At(db1, EntryPriority(k))
    requires Store.Scores(db3, PriorityKey()) == Store.Scores(db1, PriorityKey()) - {key}
    requires JournalOnly(db1, db3)
    ensures EntryCleaned(db0, db3, key)
  {
    JournalOnlyTrans(db0, db1, db3);
  }

  /**
   * What write records in the journal's keys: the entry's tag set is exactly the given tags, the
   * entry sits in each of their key sets, its priority is recorded exactly when one is given, and
   * no other entry's tags, tag memberships, priority key or score change.
   */
  ghost predicate Recorded(a: Store.Db, b: Store.Db, key: string, dp: Deps) {
    && Store.Members(b, EntryTags(key)) == Elems(TagList(dp.tags))
    && (forall t :: t in TagList(dp.tags) ==> key in Store.Members(b, TagKeys(t)))
    && (key in Store.Scores(b, PriorityKey()) <==> dp.priority.Some?)
    && (dp.priority.Some? ==> Store.Scores(b, PriorityKey())[key] == dp.priority.value)
    && Store.At(b, EntryPriority(key)) == None
    && (forall k :: k != key ==> Store.Members(b, EntryTags(k)) == Store.Members(a, EntryTags(k)))
    && (forall t :: Store.Members(b, TagKeys(t)) - {key} == Store.Members(a, TagKeys(t)) - {key})
    && (forall k :: k != key ==> Store.At(b, EntryPriority(k)) == Store.At(a, EntryPriority(k)))
    && Store.Scores(b, PriorityKey()) - {key} == Store.Scores(a, PriorityKey()) - {key}
  }

  /** What write leaves behind: the record above, and no cache key changes. */
  ghost predicate EntryWritten(a: Store.Db, b: Store.Db, key: string, dp: Deps) {
    Recorded(a, b, key, dp) && JournalOnly(a, b)
  }

  /** The record survives any change to keys outside the journal namespace. */
  lemma RecordedStays(a: Store.Db, b: Store.Db, c: Store.Db, key: string, dp: Deps)
    requires Recorded(a, b, key, dp)
    requires forall x :: !Outside(x) ==> Store.At(c, x) == Store.At(b, x)
    ensures Recorded(a, c, key, dp)
  {
    KeysDistinct(key, key);
    forall t | t in TagList(dp.tags)
      ensures key in Store.Members(c, TagKeys(t))
    {
      KeysDistinct(t, t);
    }
    forall k | k != key
      ensures Store.Members(c, EntryTags(k)) == Store.Members(a, EntryTags(k))
      ensures Store.At(c, EntryPriority(k)) == Store.At(a, EntryPriority(k))
    {
      KeysDistinct(k, k);
    }
    forall t
      ensures Store.Members(c, TagKeys(t)) - {key} == Store.Members(a, TagKeys(t)) - {key}
    {
      KeysDistinct(t, t);
    }
  }

  /** The ZADD that ends write, when a priority is given. */
  ghost predicate Scored(a: Store.Db, b: Store.Db, key: string, priority: Option<int>) {
    if priority.Some? then
      Store.Scores(b, PriorityKey()) == Store.Scores(a, PriorityKey())[key := priority.value]
      && Store.SameExcept(a, b, {PriorityKey()})
    else b == a
  }

  /** The ZADD touches the priority set only. */
  lemma ScoredKeeps(a: Store.Db, b: Store.Db, key: string, priority: Option<int>)
    requires Scored(a, b, key, priority)
    ensures forall t :: Store.At(b, TagKeys(t)) == Store.At(a, TagKeys(t))
    ensures forall k :: Store.At(b, EntryTags(k)) == Store.At(a, EntryTags(k))
    ensures forall k :: Store.At(b, EntryPriority(k)) == Store.At(a, EntryPriority(k))
    ensures Store.Scores(b, PriorityKey()) ==
              if priority.Some? then Store.Scores(a, PriorityKey())[key := priority.value] else Store.Scores(a, PriorityKey())
    ensures JournalOnly(a, b)
  {
    if priority.Some? {
      PriorityKeyFrame(a, b);
    }
  }

  /** The tag loop after cleanEntry, then the ZADD: the entry is indexed under exactly its tags. */
  lemma LinkScoreIndexed(db1: Store.Db, db2: Store.Db, db3: Store.Db, key: string, ts: set<string>)
    requires Linking(db1, db2, key, ts)
    requires forall t :: Store.At(db3, TagKeys(t)) == Store.At(db2, TagKeys(t))
    requires forall k :: Store.At(db3, EntryTags(k)) == Store.At(db2, EntryTags(k))
    ensures Indexed(db1, db3, key, ts)
  {
  }

  /** The three stages of write leave the entry's tag set exactly its tags. */
  lemma CleanIndexedTags(db0: Store.Db, db1: Store.Db, db3: Store.Db, key: string, dp: Deps)
    requires EntryCleaned(db0, db1, key)
    requires Indexed(db1, db3, key, Elems(TagList(dp.tags)))
    ensures Store.Members(db3, EntryTags(key)) == Elems(TagList(dp.tags))
    ensures forall t :: t in TagList(dp.tags) ==> key in Store.Members(db3, TagKeys(t))
    ensures forall k :: k != key ==> Store.Members(db3, EntryTags(k)) == Store.Members(db0, EntryTags(k))
    ensures forall t :: Store.Members(db3, TagKeys(t)) <= Store.Members(db0, TagKeys(t)) + {key}
  {
  }

  /** The three stages of write leave the entry's score exactly its priority. */
  lemma CleanScoredPriority(db0: Store.Db, db1: Store.Db, db2: Store.Db, db3: Store.Db, key: string, p: Option<int>)
    requires EntryCleaned(db0, db1, key)
    requires Store.At(db2, EntryPriority(key)) == Store.At(db1, EntryPriority(key))
    requires Store.At(db2, PriorityKey()) == Store.At(db1, PriorityKey())
    requires Store.At(db3, EntryPriority(key)) == Store.At(db2, EntryPriority(key))
    requires Store.Scores(db3, PriorityKey()) ==
               if p.Some? then Store.Scores(db2, PriorityKey())[key := p.value] else Store.Scores(db2, PriorityKey())
    ensures key in Store.Scores(db3, PriorityKey()) <==> p.Some?
    ensures p.Some? ==> Store.Scores(db3, PriorityKey())[key] == p.value
    ensures Store.At(db3, EntryPriority(key)) == None
    ensures Store.Scores(db3, PriorityKey()).Keys <= Store.Scores(db0, PriorityKey()).Keys + {key}
  {
  }

  /** The three stages of write leave every other entry's memberships, priority key and score alone. */
  lemma CleanLinkScoreOthers(db0: Store.Db, db1: Store.Db, db2: Store.Db, db3: Store.Db, key: string, dp: Deps)
    requires EntryCleaned(db0, db1, key)
    requires Linking(db1, db2, key, Elems(TagList(dp.tags)))
    requires Scored(db2, db3, key, dp.priority)
    ensures forall t :: Store.Members(db3, TagKeys(t)) - {key} == Store.Members(db0, TagKeys(t)) - {key}
    ensures forall k :: k != key ==> Store.At(db3, EntryPriority(k)) == Store.At(db0, EntryPriority(k))
    ensures Store.Scores(db3, PriorityKey()) - {key} == Store.Scores(db0, PriorityKey()) - {key}
  {
    ScoredKeeps(db2, db3, key, dp.priority);
    OtherMembers(db0, db1, db3, key, Elems(TagList(dp.tags)));
    OtherScores(Store.Scores(db0, PriorityKey()), Store.Scores(db2, PriorityKey()), Store.Scores(db3, PriorityKey()), key, dp.priority);
  }

  /** Un-indexing then indexing `key` changes no tag set but in `key` itself. */
  lemma OtherMembers(db0: Store.Db, db1: Store.Db, db3: Store.Db, key: string, ts: set<string>)
    requires Unindexed(db0, db1, key)
    requires forall t :: Store.Members(db3, TagKeys(t)) == Store.Members(db1, TagKeys(t)) + (if t in ts then {key} else {})
    ensures forall t :: Store.Members(db3, TagKeys(t)) - {key} == Store.Members(db0, TagKeys(t)) - {key}
  {
  }

  /** Dropping and then maybe setting the score of `key` changes no other score. */
  lemma OtherScores(m0: map<string, int>, m2: map<string, int>, m3: map<string, int>, key: string, p: Option<int>)
    requires m2 == m0 - {key}
    requires m3 == if p.Some? then m2[key := p.value] else m2
    ensures m3 - {key} == m0 - {key}
  {
  }

  /** The three stages of write: cleanEntry, the tag loop, the ZADD. */
  lemma CleanLinkScore(db0: Store.Db, db1: Store.Db, db2: Store.Db, db3: Store.Db, key: string, dp: Deps)
    requires EntryCleaned(db0, db1, key)
    requires Linking(db1, db2, key, Elems(TagList(dp.tags)))
    requires Scored(db2, db3, key, dp.priority)
    ensures EntryWritten(db0, db3, key, dp)
    ensures Indexed(db1, db3, key, Elems(TagList(dp.tags)))
    ensures forall t :: Store.Members(db3, TagKeys(t)) <= Store.Members(db0, TagKeys(t)) + {key}
    ensures Store.Scores(db3, PriorityKey()).Keys <= Store.Scores(db0, PriorityKey()).Keys + {key}
  {
    ScoredKeeps(db2, db3, key, dp.priority);
    LinkScoreIndexed(db1, db2, db3, key, Elems(TagList(dp.tags)));
    CleanIndexedTags(db0, db1, db3, key, dp);
    CleanScoredPriority(db0, db1, db2, db3, key, dp.priority);
    CleanLinkScoreOthers(db0, db1, db2, db3, key, dp);
    JournalOnlyTrans(db0, db1, db2);
    JournalOnlyTrans(db0, db2, db3);
  }

  /** write keeps the index symmetric, and afterwards the entry is under exactly its tags. */
  lemma WriteKeepsSymmetry(db0: Store.Db, db1: Store.Db, db3: Store.Db, key: string, dp: Deps)
    requires Symmetric(db0) && EntryCleaned(db0, db1, key)
    requires Indexed(db1, db3, key, Elems(TagList(dp.tags)))
    ensures Symmetric(db3)
    ensures forall t :: key in Store.Members(db3, TagKeys(t)) <==> t in TagList(dp.tags)
  {
    UnindexKeepsSymmetry(db0, db1, key);
    IndexKeepsSymmetry(db1, db3, key, Elems(TagList(dp.tags)));
  }

  /** Indexing only cache keys keeps a journal of cache keys one. */
  lemma EntriesStayOutside(db0: Store.Db, db3: Store.Db, key: string)
    requires EntriesOutside(db0) && Outside(key)
    requires forall t :: Store.Members(db3, TagKeys(t)) <= Store.Members(db0, TagKeys(t)) + {key}
    requires Store.Scores(db3, PriorityKey()).Keys <= Store.Scores(db0, PriorityKey()).Keys + {key}
    ensures EntriesOutside(db3)
  {
  }

  // ---------------------------------------------------------------------------------
  // clean and cleanBatchData

  /** The `<tag>:keys` names of a list of tags, in order. */
  function TagKeysOf(ts: seq<string>): seq<string> {
    seq(|ts|, i requires 0 <= i < |ts| => TagKeys(ts[i]))
  }

  /** The `<key>:tags` names of a list of keys, in order. */
  function EntryTagsKeys(ks: seq<string>): seq<string> {
    seq(|ks|, i requires 0 <= i < |ks| => EntryTags(ks[i]))
  }

  /** The `<key>:priority` names of a list of keys, in order. */
  function EntryPriorityKeys(ks: seq<string>): seq<string> {
    seq(|ks|, i requires 0 <= i < |ks| => EntryPriority(ks[i]))
  }

  lemma KeyListsAppend(ks: seq<string>, k: string)
    ensures EntryTagsKeys(ks + [k]) == EntryTagsKeys(ks) + [EntryTags(k)]
    ensures EntryPriorityKeys(ks + [k]) == EntryPriorityKeys(ks) + [EntryPriority(k)]
  {
  }

  lemma DelTagKeysFrame(a: Store.Db, b: Store.Db, ts: seq<string>)
    requires Store.SameExcept(a, b, Elems(TagKeysOf(ts)))
    ensures forall t :: t !in ts ==> Store.At(b, TagKeys(t)) == Store.At(a, TagKeys(t))
    ensures forall k :: Store.At(b, EntryTags(k)) == Store.At(a, EntryTags(k))
    ensures forall k :: Store.At(b, EntryPriority(k)) == Store.At(a, EntryPriority(k))
    ensures Store.At(b, PriorityKey()) == Store.At(a, PriorityKey())
    ensures JournalOnly(a, b)
  {
    forall t | t !in ts
      ensures Store.At(b, TagKeys(t)) == Store.At(a, TagKeys(t))
    {
      forall i | 0 <= i < |ts|
        ensures TagKeysOf(ts)[i] != TagKeys(t)
      {
        KeysDistinct(ts[i], t);
      }
    }
    forall k
      ensures Store.At(b, EntryTags(k)) == Store.At(a, EntryTags(k))
      ensures Store.At(b, EntryPriority(k)) == Store.At(a, EntryPriority(k))
    {
      forall i | 0 <= i < |ts|
        ensures TagKeysOf(ts)[i] != EntryTags(k) && TagKeysOf(ts)[i] != EntryPriority(k)
      {
        KeysDistinct(ts[i], k);
      }
    }
    forall i | 0 <= i < |ts|
      ensures TagKeysOf(ts)[i] != PriorityKey() && !Outside(TagKeysOf(ts)[i])
    {
      KeysDistinct(ts[i], ts[i]);
    }
  }

  lemma DelEntryTagsFrame(a: Store.Db, b: Store.Db, ks: seq<string>)
    requires Store.SameExcept(a, b, Elems(EntryTagsKeys(ks)))
    ensures forall t :: Store.At(b, TagKeys(t)) == Store.At(a, TagKeys(t))
    ensures forall k :: k !in ks ==> Store.At(b, EntryTags(k)) == Store.At(a, EntryTags(k))
    ensures forall k :: Store.At(b, EntryPriority(k)) == Store.At(a, EntryPriority(k))
    ensures Store.At(b, PriorityKey()) == Store.At(a, PriorityKey())
    ensures JournalOnly(a, b)
  {
    forall k
      ensures Store.At(b, TagKeys(k)) == Store.At(a, TagKeys(k))
      ensures Store.At(b, EntryPriority(k)) == Store.At(a, EntryPriority(k))
      ensures k !in ks ==> Store.At(b, EntryTags(k)) == Store.At(a, EntryTags(k))
    {
      forall i | 0 <= i < |ks|
        ensures EntryTagsKeys(ks)[i] != TagKeys(k) && EntryTagsKeys(ks)[i] != EntryPriority(k)
        ensures k !in ks ==> EntryTagsKeys(ks)[i] != EntryTags(k)
      {
        KeysDistinct(k, ks[i]);
        KeysDistinct(ks[i], k);
      }
    }
    forall i | 0 <= i < |ks|
      ensures EntryTagsKeys(ks)[i] != PriorityKey() && !Outside(EntryTagsKeys(ks)[i])
    {
      KeysDistinct(ks[i], ks[i]);
    }
  }

  lemma DelEntryPriorityFrame(a: Store.Db, b: Store.Db, ks: seq<string>)
    requires Store.SameExcept(a, b, Elems(EntryPriorityKeys(ks)))
    ensures forall t :: Store.At(b, TagKeys(t)) == Store.At(a, TagKeys(t))
    ensures forall k :: Store.At(b, EntryTags(k)) == Store.At(a, EntryTags(k))
    ensures forall k :: k !in ks ==> Store.At(b, EntryPriority(k)) == Store.At(a, EntryPriority(k))
    ensures Store.At(b, PriorityKey()) == Store.At(a, PriorityKey())
    ensures JournalOnly(a, b)
  {
    forall k
      ensures Store.At(b, TagKeys(k)) == Store.At(a, TagKeys(k))
      ensures Store.At(b, EntryTags(k)) == Store.At(a, EntryTags(k))
      ensures k !in ks ==> Store.At(b, EntryPriority(k)) == Store.At(a, EntryPriority(k))
    {
      forall i | 0 <= i < |ks|
        ensures EntryPriorityKeys(ks)[i] != TagKeys(k) && EntryPriorityKeys(ks)[i] != EntryTags(k)
        ensures k !in ks ==> EntryPriorityKeys(ks)[i] != EntryPriority(k)
      {
        KeysDistinct(k, ks[i]);
      }
    }
    forall i | 0 <= i < |ks|
      ensures EntryPriorityKeys(ks)[i] != PriorityKey() && !Outside(EntryPriorityKeys(ks)[i])
    {
      KeysDistinct(ks[i], ks[i]);
    }
  }

  /** Deleting cache keys leaves every journal key as it was. */
  lemma DelOutsideFrame(a: Store.Db, b: Store.Db, ks: seq<string>)
    requires Store.SameExcept(a, b, Elems(ks)) && forall x :: x in ks ==> Outside(x)
    requires forall x :: x in ks ==> Store.At(b, x) == None
    ensures forall t :: Store.At(b, TagKeys(t)) == Store.At(a, TagKeys(t))
    ensures forall k :: Store.At(b, EntryTags(k)) == Store.At(a, EntryTags(k))
    ensures forall k :: Store.At(b, EntryPriority(k)) == Store.At(a, EntryPriority(k))
    ensures Store.At(b, PriorityKey()) == Store.At(a, PriorityKey())
    ensures forall x :: Outside(x) ==> Store.At(b, x) == if x in ks then None else Store.At(a, x)
  {
    forall k
      ensures Store.At(b, TagKeys(k)) == Store.At(a, TagKeys(k))
      ensures Store.At(b, EntryTags(k)) == Store.At(a, EntryTags(k))
      ensures Store.At(b, EntryPriority(k)) == Store.At(a, EntryPriority(k))
    {
      KeysDistinct(k, k);
    }
    KeysDistinct("", "");
  }

  /** The state of cleanBatchData's loop: the tags in `done` have lost the keys `ks`. */
  ghost predicate Untagging(a: Store.Db, db: Store.Db, ks: set<string>, done: set<string>) {
    && (forall t :: Store.Members(db, TagKeys(t)) ==
          (if t in done && Truthy(t) then Store.Members(a, TagKeys(t)) - ks else Store.Members(a, TagKeys(t))))
    && (forall k :: Store.At(db, EntryTags(k)) == Store.At(a, EntryTags(k)))
    && (forall k :: Store.At(db, EntryPriority(k)) == Store.At(a, EntryPriority(k)))
    && Store.At(db, PriorityKey()) == Store.At(a, PriorityKey())
    && JournalOnly(a, db)
  }

  lemma UntagOneMore(a: Store.Db, before: Store.Db, after: Store.Db, ks: set<string>, done: set<string>, tag: string)
    requires Untagging(a, before, ks, done)
    requires Truthy(tag) ==> Store.Members(after, TagKeys(tag)) == Store.Members(before, TagKeys(tag)) - ks
    requires Truthy(tag) ==> Store.SameExcept(before, after, {TagKeys(tag)})
    requires !Truthy(tag) ==> after == before
    ensures Untagging(a, after, ks, done + {tag})
  {
    if Truthy(tag) {
      TagKeyFrame(before, after, tag);
    }
  }

  /**
   * What one cleanBatchData call does, for a batch `batch` of entries, the keys `ks` to drop
   * from the affected tags and the cache keys `dropped` it deletes: the truthy tags of every
   * batch entry lose all of `ks`, no other key leaves a tag set, the batch entries' tags and
   * priority keys are deleted, and the rest of the journal is untouched.
   */
  ghost predicate Batched(a: Store.Db, b: Store.Db, batch: set<string>, ks: set<string>, dropped: set<string>) {
    && (forall t :: Store.Members(b, TagKeys(t)) <= Store.Members(a, TagKeys(t)))
    && (forall t :: Store.Members(a, TagKeys(t)) - ks <= Store.Members(b, TagKeys(t)))
    && (forall k, t :: k in batch && t in Store.Members(a, EntryTags(k)) && Truthy(t) ==> Store.Members(b, TagKeys(t)) !! ks)
    && (forall k :: k in batch ==> Store.At(b, EntryTags(k)) == None && Store.At(b, EntryPriority(k)) == None)
    && (forall k :: k !in batch ==> Store.At(b, EntryTags(k)) == Store.At(a, EntryTags(k)))
    && (forall k :: k !in batch ==> Store.At(b, EntryPriority(k)) == Store.At(a, EntryPriority(k)))
    && Store.At(b, PriorityKey()) == Store.At(a, PriorityKey())
    && (forall x :: Outside(x) ==> Store.At(b, x) == if x in dropped then None else Store.At(a, x))
  }

  /** The untagging loop covered every truthy tag of the batch. */
  lemma UntagCovers(a: Store.Db, u: Store.Db, batch: seq<string>, ks: set<string>, affected: seq<string>)
    requires Untagging(a, u, ks, Elems(affected))
    requires forall m :: m in affected <==> exists x :: x in EntryTagsKeys(batch) && m in Store.Members(a, x)
    ensures forall k, t :: k in batch && t in Store.Members(a, EntryTags(k)) && Truthy(t) ==> Store.Members(u, TagKeys(t)) !! ks
  {
    forall k, t | k in batch && t in Store.Members(a, EntryTags(k)) && Truthy(t)
      ensures Store.Members(u, TagKeys(t)) !! ks
    {
      var i :| 0 <= i < |batch| && batch[i] == k;
      assert EntryTagsKeys(batch)[i] == EntryTags(k);
      assert t in affected;
    }
  }

  /** The DELs of the batch entries' own keys leave none of them behind. */
  lemma BatchKeysGone(d1: Store.Db, d2: Store.Db, d3: Store.Db, batch: seq<string>)
    requires forall x :: x in EntryTagsKeys(batch) ==> Store.At(d1, x) == None
    requires forall k :: Store.At(d2, EntryTags(k)) == Store.At(d1, EntryTags(k))
    requires forall x :: x in EntryPriorityKeys(batch) ==> Store.At(d2, x) == None
    requires forall k :: Store.At(d3, EntryTags(k)) == Store.At(d2, EntryTags(k))
    requires forall k :: Store.At(d3, EntryPriority(k)) == Store.At(d2, EntryPriority(k))
    ensures forall k :: k in batch ==> Store.At(d3, EntryTags(k)) == None && Store.At(d3, EntryPriority(k)) == None
  {
    forall k | k in batch
      ensures Store.At(d3, EntryTags(k)) == None && Store.At(d3, EntryPriority(k)) == None
    {
      var i :| 0 <= i < |batch| && batch[i] == k;
      assert EntryTagsKeys(batch)[i] == EntryTags(k);
      assert EntryPriorityKeys(batch)[i] == EntryPriority(k);
    }
  }

  /** The stages of cleanBatchData put together. */
  lemma BatchStages(a: Store.Db, u: Store.Db, d1: Store.Db, d2: Store.Db, d3: Store.Db,
                    batch: seq<string>, ks: set<string>, done: set<string>, dropped: seq<string>)
    requires Untagging(a, u, ks, done)
    requires forall k, t :: k in batch && t in Store.Members(a, EntryTags(k)) && Truthy(t) ==> Store.Members(u, TagKeys(t)) !! ks
    requires Store.SameExcept(u, d1, Elems(EntryTagsKeys(batch)))
    requires forall x :: x in EntryTagsKeys(batch) ==> Store.At(d1, x) == None
    requires Store.SameExcept(d1, d2, Elems(EntryPriorityKeys(batch)))
    requires forall x :: x in EntryPriorityKeys(batch) ==> Store.At(d2, x) == None
    requires Store.SameExcept(d2, d3, Elems(dropped)) && forall x :: x in dropped ==> Outside(x)
    requires forall x :: x in dropped ==> Store.At(d3, x) == None
    ensures Batched(a, d3, Elems(batch), ks, Elems(dropped))
  {
    BatchDels(u, d1, d2, d3, batch, dropped);
  }

  /** The three DELs of cleanBatchData, seen from the state the untagging loop left. */
  lemma BatchDels(u: Store.Db, d1: Store.Db, d2: Store.Db, d3: Store.Db, batch: seq<string>, dropped: seq<string>)
    requires Store.SameExcept(u, d1, Elems(EntryTagsKeys(batch)))
    requires forall x :: x in EntryTagsKeys(batch) ==> Store.At(d1, x) == None
    requires Store.SameExcept(d1, d2, Elems(EntryPriorityKeys(batch)))
    requires forall x :: x in EntryPriorityKeys(batch) ==> Store.At(d2, x) == None
    requires Store.SameExcept(d2, d3, Elems(dropped)) && forall x :: x in dropped ==> Outside(x)
    requires forall x :: x in dropped ==> Store.At(d3, x) == None
    ensures forall t :: Store.At(d3, TagKeys(t)) == Store.At(u, TagKeys(t))
    ensures forall k :: k in batch ==> Store.At(d3, EntryTags(k)) == None && Store.At(d3, EntryPriority(k)) == None
    ensures forall k :: k !in batch ==> Store.At(d3, EntryTags(k)) == Store.At(u, EntryTags(k))
    ensures forall k :: k !in batch ==> Store.At(d3, EntryPriority(k)) == Store.At(u, EntryPriority(k))
    ensures Store.At(d3, PriorityKey()) == Store.At(u, PriorityKey())
    ensures forall x :: Outside(x) ==> Store.At(d3, x) == if x in dropped then None else Store.At(u, x)
  {
    DelEntryTagsFrame(u, d1, batch);
    DelEntryPriorityFrame(d1, d2, batch);
    DelOutsideFrame(d2, d3, dropped);
    BatchKeysGone(d1, d2, d3, batch);
    JournalOnlyTrans(u, d1, d2);
  }

  /** The entries under the tags `ts`. */
  function TagsFound(db: Store.Db, ts: seq<string>): set<string> {
    set t, k | t in ts && k in Store.Members(db, TagKeys(t)) :: k
  }

  /** The entries a clean by tags `ts` and, when given, maximal priority `priority` selects. */
  function Found(db: Store.Db, ts: seq<string>, priority: Option<int>): set<string> {
    TagsFound(db, ts) + if priority.Some? then Store.InRange(Store.Scores(db, PriorityKey()), 0, priority.value) else {}
  }

  lemma TagsFoundAppend(db: Store.Db, ts: seq<string>, t: string)
    ensures TagsFound(db, ts + [t]) == TagsFound(db, ts) + Store.Members(db, TagKeys(t))
  {
    forall k | k in TagsFound(db, ts + [t])
      ensures k in TagsFound(db, ts) + Store.Members(db, TagKeys(t))
    {
      var u :| u in ts + [t] && k in Store.Members(db, TagKeys(u));
      if u != t {
        assert u in ts;
      }
    }
  }

  /** A journal of cache keys selects only cache keys. */
  lemma FoundOutside(db: Store.Db, ts: seq<string>, priority: Option<int>)
    requires EntriesOutside(db)
    ensures forall x :: x in Found(db, ts, priority) ==> Outside(x)
  {
  }

  /** Two batches processed one after the other. */
  lemma BatchedTrans(a: Store.Db, b: Store.Db, c: Store.Db, p: set<string>, q: set<string>, ks: set<string>,
                     dp: set<string>, dq: set<string>)
    requires Batched(a, b, p, ks, dp) && Batched(b, c, q, ks, dq) && p !! q
    ensures Batched(a, c, p + q, ks, dp + dq)
  {
    forall k, t | k in p + q && t in Store.Members(a, EntryTags(k)) && Truthy(t)
      ensures Store.Members(c, TagKeys(t)) !! ks
    {
      if k in q {
        assert Store.At(b, EntryTags(k)) == Store.At(a, EntryTags(k));
      }
    }
  }

  lemma ElemsSplit(s: seq<string>, i: nat, j: nat)
    requires NoDup(s) && i <= j <= |s|
    ensures Elems(s[..j]) == Elems(s[..i]) + Elems(s[i..j])
    ensures Elems(s[..i]) !! Elems(s[i..j])
  {
    assert s[..j] == s[..i] + s[i..j];
    forall x | x in Elems(s[..i])
      ensures x !in Elems(s[i..j])
    {
      var m :| 0 <= m < i && s[m] == x;
    }
  }

  /** The batches so far of clean's batch loop: the entries before `start` are cleaned. */
  ghost predicate BatchedUpTo(db1: Store.Db, db: Store.Db, entries: seq<string>, start: nat, rs: bool)
    requires start <= |entries|
  {
    Batched(db1, db, Elems(entries[..start]), Elems(entries), if rs then Elems(entries[..start]) else {})
  }

  lemma BatchedNone(db1: Store.Db, entries: seq<string>, rs: bool)
    ensures BatchedUpTo(db1, db1, entries, 0, rs)
  {
    assert Elems(entries[..0]) == {};
  }

  lemma BatchedAll(db1: Store.Db, db: Store.Db, entries: seq<string>, rs: bool)
    requires BatchedUpTo(db1, db, entries, |entries|, rs)
    ensures Batched(db1, db, Elems(entries), Elems(entries), if rs then Elems(entries) else {})
  {
    assert entries[..|entries|] == entries;
  }

  /** The batch being gathered: the entries `entries[start..i]`, their own keys and, for a RedisStorage, themselves. */
  ghost predicate Gathered(entries: seq<string>, start: nat, i: nat, keys: seq<string>, tagKeys: seq<string>,
                           priorityKeys: seq<string>, rs: bool)
  {
    && start <= i <= |entries|
    && tagKeys == EntryTagsKeys(entries[start..i])
    && priorityKeys == EntryPriorityKeys(entries[start..i])
    && keys == if rs then entries[start..i] else []
  }

  lemma GatheredNone(entries: seq<string>, start: nat, rs: bool)
    requires start <= |entries|
    ensures Gathered(entries, start, start, [], [], [], rs)
  {
    assert entries[start..start] == [];
  }

  lemma GatheredOneMore(entries: seq<string>, start: nat, i: nat, keys: seq<string>, tagKeys: seq<string>,
                        priorityKeys: seq<string>, rs: bool)
    requires Gathered(entries, start, i, keys, tagKeys, priorityKeys, rs) && i < |entries|
    ensures Gathered(entries, start, i + 1, if rs then keys + [entries[i]] else keys,
                     tagKeys + [EntryTags(entries[i])], priorityKeys + [EntryPriority(entries[i])], rs)
  {
    assert entries[start..i + 1] == entries[start..i] + [entries[i]];
    KeyListsAppend(entries[start..i], entries[i]);
  }

  /** The batch loop of clean after a flush of the entries `entries[start..end]`. */
  lemma FlushKeeps(db1: Store.Db, a: Store.Db, b: Store.Db, entries: seq<string>, start: nat, end: nat, rs: bool)
    requires NoDup(entries) && start <= end <= |entries|
    requires BatchedUpTo(db1, a, entries, start, rs)
    requires Batched(a, b, Elems(entries[start..end]), Elems(entries), if rs then Elems(entries[start..end]) else {})
    ensures BatchedUpTo(db1, b, entries, end, rs)
  {
    ElemsSplit(entries, start, end);
    BatchedTrans(db1, a, b, Elems(entries[..start]), Elems(entries[start..end]), Elems(entries),
                 if rs then Elems(entries[..start]) else {}, if rs then Elems(entries[start..end]) else {});
  }

  /**
   * What a clean by tags `ts` and priority leaves behind, with `F` the selected entries: the
   * tags' key sets are gone, tag sets only shrink and lose only selected entries, each selected
   * entry has left every truthy tag it had and lost its own tags and priority keys, the
   * priorities up to the limit are dropped, and among the cache keys exactly the selected
   * ones are deleted when the storage is a RedisStorage.
   */
  ghost predicate Cleaned(db0: Store.Db, db: Store.Db, ts: seq<string>, priority: Option<int>, rs: bool) {
    var f := Found(db0, ts, priority);
    && (forall t :: t in ts ==> Store.Members(db, TagKeys(t)) == {})
    && (forall t :: Store.Members(db, TagKeys(t)) <= Store.Members(db0, TagKeys(t)))
    && (forall t :: t !in ts ==> Store.Members(db0, TagKeys(t)) - f <= Store.Members(db, TagKeys(t)))
    && (forall k, t :: k in f && t in Store.Members(db0, EntryTags(k)) && Truthy(t) ==> k !in Store.Members(db, TagKeys(t)))
    && (forall k :: k in f ==> Store.At(db, EntryTags(k)) == None && Store.At(db, EntryPriority(k)) == None)
    && (forall k :: k !in f ==> Store.At(db, EntryTags(k)) == Store.At(db0, EntryTags(k)))
    && (forall k :: k !in f ==> Store.At(db, EntryPriority(k)) == Store.At(db0, EntryPriority(k)))
    && Store.Scores(db, PriorityKey()) ==
         (if priority.Some? then Store.Scores(db0, PriorityKey()) - Store.InRange(Store.Scores(db0, PriorityKey()), 0, priority.value)
          else Store.Scores(db0, PriorityKey()))
    && (forall x :: Outside(x) ==> Store.At(db, x) == if rs && x in f then None else Store.At(db0, x))
  }

  /**
   * What the first two stages of clean leave behind: the key sets of the tags `ts` are gone,
   * and so are the priorities up to `priority`; nothing else has changed.
   */
  ghost predicate Selected(db0: Store.Db, db1: Store.Db, ts: seq<string>, priority: Option<int>) {
    && (forall t :: t in ts ==> Store.Members(db1, TagKeys(t)) == {})
    && (forall t :: t !in ts ==> Store.At(db1, TagKeys(t)) == Store.At(db0, TagKeys(t)))
    && (forall k :: Store.At(db1, EntryTags(k)) == Store.At(db0, EntryTags(k)))
    && (forall k :: Store.At(db1, EntryPriority(k)) == Store.At(db0, EntryPriority(k)))
    && Store.Scores(db1, PriorityKey()) ==
         (if priority.Some? then Store.Scores(db0, PriorityKey()) - Store.InRange(Store.Scores(db0, PriorityKey()), 0, priority.value)
          else Store.Scores(db0, PriorityKey()))
    && JournalOnly(db0, db1)
  }

  /** The first two stages of clean: the DEL of the tags' key sets and the priority range. */
  lemma TagsThenPriority(db0: Store.Db, da: Store.Db, db1: Store.Db, ts: seq<string>, priority: Option<int>)
    requires Store.SameExcept(db0, da, Elems(TagKeysOf(ts)))
    requires forall t :: t in ts ==> Store.At(da, TagKeys(t)) == None
    requires priority.None? ==> db1 == da
    requires priority.Some? ==>
      Store.Scores(db1, PriorityKey()) == Store.Scores(da, PriorityKey()) - Store.InRange(Store.Scores(da, PriorityKey()), 0, priority.value)
    requires priority.Some? ==> Store.SameExcept(da, db1, {PriorityKey()})
    ensures Selected(db0, db1, ts, priority)
  {
    DelTagKeysFrame(db0, da, ts);
    if priority.Some? {
      PriorityKeyFrame(da, db1);
    }
    JournalOnlyTrans(db0, da, db1);
  }

  /** The stages of clean put together: the tags' key sets, the priorities, the batches. */
  lemma CleanStages(db0: Store.Db, db1: Store.Db, db: Store.Db, ts: seq<string>, priority: Option<int>, rs: bool)
    requires Selected(db0, db1, ts, priority)
    requires var f := Found(db0, ts, priority); Batched(db1, db, f, f, if rs then f else {})
    ensures Cleaned(db0, db, ts, priority, rs)
  {
    var f := Found(db0, ts, priority);
    SelectedTags(db0, db1, db, ts, f, if rs then f else {});
    SelectedEntries(db0, db1, db, ts, priority, f, if rs then f else {});
  }

  /** The batches after the first two stages of clean, as seen from the tags' key sets. */
  lemma SelectedTags(db0: Store.Db, db1: Store.Db, db: Store.Db, ts: seq<string>, f: set<string>, dropped: set<string>)
    requires forall t :: t in ts ==> Store.Members(db1, TagKeys(t)) == {}
    requires forall t :: t !in ts ==> Store.At(db1, TagKeys(t)) == Store.At(db0, TagKeys(t))
    requires forall k :: Store.At(db1, EntryTags(k)) == Store.At(db0, EntryTags(k))
    requires forall t :: Store.Members(db, TagKeys(t)) <= Store.Members(db1, TagKeys(t))
    requires forall t :: Store.Members(db1, TagKeys(t)) - f <= Store.Members(db, TagKeys(t))
    requires forall k, t :: k in f && t in Store.Members(db1, EntryTags(k)) && Truthy(t) ==> Store.Members(db, TagKeys(t)) !! f
    ensures forall t :: t in ts ==> Store.Members(db, TagKeys(t)) == {}
    ensures forall t :: Store.Members(db, TagKeys(t)) <= Store.Members(db0, TagKeys(t))
    ensures forall t :: t !in ts ==> Store.Members(db0, TagKeys(t)) - f <= Store.Members(db, TagKeys(t))
    ensures forall k, t :: k in f && t in Store.Members(db0, EntryTags(k)) && Truthy(t) ==> k !in Store.Members(db, TagKeys(t))
  {
    forall t
      ensures Store.Members(db, TagKeys(t)) <= Store.Members(db0, TagKeys(t))
    {
      if t in ts {
        assert Store.Members(db1, TagKeys(t)) == {};
      } else {
        assert Store.Members(db1, TagKeys(t)) == Store.Members(db0, TagKeys(t));
      }
    }
    forall k, t | k in f && t in Store.Members(db0, EntryTags(k)) && Truthy(t)
      ensures k !in Store.Members(db, TagKeys(t))
    {
      assert t in Store.Members(db1, EntryTags(k));
    }
  }

  /** The batches after the first two stages of clean, as seen from the entries and cache keys. */
  lemma SelectedEntries(db0: Store.Db, db1: Store.Db, db: Store.Db, ts: seq<string>, priority: Option<int>,
                        f: set<string>, dropped: set<string>)
    requires Selected(db0, db1, ts, priority)
    requires forall k :: k in f ==> Store.At(db, EntryTags(k)) == None && Store.At(db, EntryPriority(k)) == None
    requires forall k :: k !in f ==> Store.At(db, EntryTags(k)) == Store.At(db1, EntryTags(k))
    requires forall k :: k !in f ==> Store.At(db, EntryPriority(k)) == Store.At(db1, EntryPriority(k))
    requires Store.At(db, PriorityKey()) == Store.At(db1, PriorityKey())
    requires forall x :: Outside(x) ==> Store.At(db, x) == if x in dropped then None else Store.At(db1, x)
    ensures forall k :: k !in f ==> Store.At(db, EntryTags(k)) == Store.At(db0, EntryTags(k))
    ensures forall k :: k !in f ==> Store.At(db, EntryPriority(k)) == Store.At(db0, EntryPriority(k))
    ensures Store.Scores(db, PriorityKey()) ==
         (if priority.Some? then Store.Scores(db0, PriorityKey()) - Store.InRange(Store.Scores(db0, PriorityKey()), 0, priority.value)
          else Store.Scores(db0, PriorityKey()))
    ensures forall x :: Outside(x) ==> Store.At(db, x) == if x in dropped then None else Store.At(db0, x)
  {
  }

  /**
   * Under a symmetric index whose tags are all truthy, clean keeps the index symmetric and no
   * selected entry is left under any tag.
   */
  lemma CleanKeepsSymmetry(db0: Store.Db, db: Store.Db, ts: seq<string>, priority: Option<int>, rs: bool)
    requires Symmetric(db0) && TagsTruthy(db0) && Cleaned(db0, db, ts, priority, rs)
    ensures Symmetric(db)
    ensures forall t, k :: k in Found(db0, ts, priority) ==> k !in Store.Members(db, TagKeys(t))
  {
    var f := Found(db0, ts, priority);
    forall t, k | k in f
      ensures k !in Store.Members(db, TagKeys(t))
    {
    }
    forall t, k
      ensures k in Store.Members(db, TagKeys(t)) <==> t in Store.Members(db, EntryTags(k))
    {
      if k !in f {
        assert k in Store.Members(db0, TagKeys(t)) <==> t in Store.Members(db0, EntryTags(k));
      }
    }
  }

  /** clean removes entries only, so a journal of cache keys stays one. */
  lemma CleanKeepsEntriesOutside(db0: Store.Db, db: Store.Db, ts: seq<string>, priority: Option<int>, rs: bool)
    requires EntriesOutside(db0) && Cleaned(db0, db, ts, priority, rs)
    ensures EntriesOutside(db)
  {
  }

  /** A clean by any tag an entry was written with selects that entry. */
  lemma WrittenTagSelects(a: Store.Db, b: Store.Db, key: string, dp: Deps, t: string)
    requires EntryWritten(a, b, key, dp) && t in TagList(dp.tags)
    ensures key in Found(b, [t], None)
  {
    assert t in [t];
  }

  /** A clean by priority selects a written entry exactly when its priority is in `[0, limit]`. */
  lemma WrittenPrioritySelects(a: Store.Db, b: Store.Db, key: string, dp: Deps, limit: int)
    requires EntryWritten(a, b, key, dp) && dp.priority.Some?
    ensures key in Found(b, [], Some(limit)) <==> 0 <= dp.priority.value <= limit
  {
    assert TagsFound(b, []) == {};
  }

  class RedisJournal {
    var client: Server.Redis

    constructor (client: Server.Redis)
      ensures this.client == client
    {
      this.client := client;
    }

    /** entryTags */
    method EntryTagsOf(key: string) returns (tags: seq<string>)
      ensures Elems(tags) == Store.Members(client.db, EntryTags(key)) && NoDup(tags)
    {
      tags := client.SMembers(EntryTags(key));
    }

    /** tagEntries */
    method TagEntries(tag: string) returns (keys: seq<string>)
      ensures Elems(keys) == Store.Members(client.db, TagKeys(tag)) && NoDup(keys)
    {
      keys := client.SMembers(TagKeys(tag));
    }

    /** priorityEntries: the keys with a priority in `[0, priority]`. */
    method PriorityEntries(priority: int) returns (keys: seq<string>)
      ensures Elems(keys) == Store.InRange(Store.Scores(client.db, PriorityKey()), 0, priority) && NoDup(keys)
    {
      keys := client.ZRangeByScore(PriorityKey(), 0, priority);
    }

    /** cleanEntry: takes `key` out of its tags' sets and drops its own tags, priority and score. */
    method CleanEntry(key: string)
      modifies client
      ensures EntryCleaned(old(client.db), client.db, key)
      ensures Symmetric(old(client.db)) ==> Symmetric(client.db) && forall t :: key !in Store.Members(client.db, TagKeys(t))
    {
      var entries := EntryTagsOf(key);
      ghost var db0 := client.db;
      var i := 0;
      while i < |entries|
        invariant 0 <= i <= |entries|
        invariant Unlinking(db0, client.db, key, Elems(entries[..i]))
      {
        UnlinkOneMore(db0, client.db, key, Elems(entries[..i]), entries[i]);
        client.SRem(TagKeys(entries[i]), [key]);
        assert Elems([key]) == {key};
        assert Elems(entries[..i + 1]) == Elems(entries[..i]) + {entries[i]} by {
          assert entries[..i + 1] == entries[..i] + [entries[i]];
        }
        i := i + 1;
      }
      assert entries[..i] == entries;
      ghost var db1 := client.db;
      client.Del([EntryTags(key), EntryPriority(key)]);
      assert Elems([EntryTags(key), EntryPriority(key)]) == {EntryTags(key), EntryPriority(key)};
      ghost var db2 := client.db;
      client.ZRem(PriorityKey(), key);
      DropEntryKeys(db1, db2, client.db, key);
      UnlinkThenDrop(db0, db1, client.db, key);
      if Symmetric(db0) {
        UnindexKeepsSymmetry(db0, client.db, key);
      }
    }

    /** The tag loop of write: `key` goes into each tag's set and each tag into the key's set. */
    method Link(key: string, tags: seq<string>)
      modifies client
      ensures Linking(old(client.db), client.db, key, Elems(tags))
    {
      ghost var db1 := client.db;
      var i := 0;
      while i < |tags|
        invariant 0 <= i <= |tags|
        invariant Linking(db1, client.db, key, Elems(tags[..i]))
      {
        ghost var before := client.db;
        var _ := client.SAdd(TagKeys(tags[i]), key);
        ghost var mid := client.db;
        var _ := client.SAdd(EntryTags(key), tags[i]);
        LinkOneMore(db1, before, mid, client.db, key, Elems(tags[..i]), tags[i]);
        ElemsSnoc(tags, i);
        i := i + 1;
      }
      assert tags[..i] == tags;
    }

    /**
     * write: un-indexes the key, then indexes it under each distinct tag on both sides and
     * records its priority when one is given.
     */
    method Write(key: string, dp: Deps)
      modifies client
      ensures EntryWritten(old(client.db), client.db, key, dp)
      ensures Symmetric(old(client.db)) ==> Symmetric(client.db)
      ensures Symmetric(old(client.db)) ==> forall t :: key in Store.Members(client.db, TagKeys(t)) <==> t in TagList(dp.tags)
      ensures EntriesOutside(old(client.db)) && Outside(key) ==> EntriesOutside(client.db)
    {
      ghost var db0 := client.db;
      CleanEntry(key);
      ghost var db1 := client.db;
      var tags := Dedup(TagList(dp.tags));
      Link(key, tags);
      assert Elems(tags) == Elems(TagList(dp.tags));
      ghost var db2 := client.db;
      if dp.priority.Some? {
        client.ZAdd(PriorityKey(), dp.priority.value, key);
      }
      CleanLinkScore(db0, db1, db2, client.db, key, dp);
      if Symmetric(db0) {
        WriteKeepsSymmetry(db0, db1, client.db, key, dp);
      }
      if EntriesOutside(db0) && Outside(key) {
        EntriesStayOutside(db0, client.db, key);
      }
    }

    /** The loop of cleanBatchData over the affected tags; falsy tags are skipped. */
    method Untag(affected: seq<string>, keys: seq<string>)
      modifies client
      ensures Untagging(old(client.db), client.db, Elems(keys), Elems(affected))
    {
      ghost var a := client.db;
      var i := 0;
      while i < |affected|
        invariant 0 <= i <= |affected|
        invariant Untagging(a, client.db, Elems(keys), Elems(affected[..i]))
      {
        ghost var before := client.db;
        if Truthy(affected[i]) {
          client.SRem(TagKeys(affected[i]), keys);
        }
        UntagOneMore(a, before, client.db, Elems(keys), Elems(affected[..i]), affected[i]);
        assert Elems(affected[..i + 1]) == Elems(affected[..i]) + {affected[i]} by {
          assert affected[..i + 1] == affected[..i] + [affected[i]];
        }
        i := i + 1;
      }
      assert affected[..i] == affected;
    }

    /**
     * cleanBatchData: drops all of `keys` from every truthy tag of the batch, then deletes the
     * batch's tag sets, its priority keys and, for a RedisStorage, the cached entries. The ghost
     * `batch` is the list of entries the two key lists were built from.
     */
    method CleanBatchData(removingKeys: seq<string>, removingKeyPriorities: seq<string>,
                          removingKeyTags: seq<string>, keys: seq<string>, ghost batch: seq<string>)
      requires removingKeyTags == EntryTagsKeys(batch) && removingKeyPriorities == EntryPriorityKeys(batch)
      modifies client
      ensures (forall x :: x in removingKeys ==> Outside(x)) ==>
                Batched(old(client.db), client.db, Elems(batch), Elems(keys), Elems(removingKeys))
    {
      ghost var a := client.db;
      ghost var done: set<string> := {};
      if |removingKeyTags| > 0 && |keys| > 0 {
        var affectedTags := client.SUnion(removingKeyTags);
        Untag(affectedTags, keys);
        UntagCovers(a, client.db, batch, Elems(keys), affectedTags);
        done := Elems(affectedTags);
      }
      ghost var u := client.db;
      if |removingKeyTags| > 0 {
        client.Del(removingKeyTags);
      }
      ghost var d1 := client.db;
      if |removingKeyPriorities| > 0 {
        client.Del(removingKeyPriorities);
      }
      ghost var d2 := client.db;
      if |removingKeys| > 0 {
        client.Del(removingKeys);
      }
      if forall x :: x in removingKeys ==> Outside(x) {
        BatchStages(a, u, d1, d2, client.db, batch, Elems(keys), done, removingKeys);
      }
    }

    /**
     * The `Cache::ALL` branch of clean. The keys found are passed to one `del`; when there
     * are none, that call fails with a client error and nothing changes.
     */
    method CleanAll(redisStorage: bool) returns (err: Option<Error>)
      modifies client
      ensures err.Some? <==> NothingToWipe(old(client.db), redisStorage)
      ensures err.Some? ==> err.value == ClientError(DelWithoutKeys) && client.db == old(client.db)
      ensures forall x :: Prefix <= x || (redisStorage && StoragePrefix <= x) ==> Store.At(client.db, x) == None
      ensures forall x :: !(Prefix <= x) && !(redisStorage && StoragePrefix <= x) ==>
                Store.At(client.db, x) == Store.At(old(client.db), x)
    {
      var all := client.Keys(Prefix);
      if redisStorage {
        var storageKeys := client.Keys(StoragePrefix);
        all := all + storageKeys;
      }
      if all == [] {
        return Some(ClientError(DelWithoutKeys));
      }
      assert all[0] in Elems(all);
      client.Del(all);
      return None;
    }

    /**
     * The first two stages of clean: collect the entries of the tags and delete the tags' key
     * sets, then collect the entries up to the priority and drop their scores.
     */
    method Select(tags: seq<string>, priority: Option<int>) returns (entries: seq<string>)
      modifies client
      ensures Elems(entries) == Found(old(client.db), tags, priority)
      ensures Selected(old(client.db), client.db, tags, priority)
    {
      ghost var db0 := client.db;
      entries := [];
      var removingTagKeys: seq<string> := [];
      var i := 0;
      while i < |tags|
        invariant 0 <= i <= |tags|
        invariant client.db == db0
        invariant Elems(entries) == TagsFound(db0, tags[..i])
        invariant removingTagKeys == TagKeysOf(tags[..i])
      {
        var found := TagEntries(tags[i]);
        removingTagKeys := removingTagKeys + [TagKeys(tags[i])];
        entries := entries + found;
        assert tags[..i + 1] == tags[..i] + [tags[i]];
        TagsFoundAppend(db0, tags[..i], tags[i]);
        i := i + 1;
      }
      assert tags[..i] == tags;
      if |removingTagKeys| > 0 {
        client.Del(removingTagKeys);
      }
      ghost var da := client.db;
      forall t | t in tags
        ensures Store.At(da, TagKeys(t)) == None
      {
        var j :| 0 <= j < |tags| && tags[j] == t;
        assert removingTagKeys[j] == TagKeys(t);
      }
      DelTagKeysFrame(db0, da, tags);
      ghost var tagged := entries;
      if priority.Some? {
        var found := PriorityEntries(priority.value);
        client.ZRemRangeByScore(PriorityKey(), 0, priority.value);
        entries := entries + found;
        assert Elems(entries) == Elems(tagged) + Elems(found);
      }
      TagsThenPriority(db0, da, client.db, tags, priority);
    }

    /**
     * The batch loop of clean over the distinct selected entries: every BatchSize entries, and
     * once at the end, cleanBatchData un-indexes the batch. `h` says the cache keys it deletes
     * lie outside the journal namespace.
     */
    method CleanBatches(entries: seq<string>, redisStorage: bool, ghost h: bool)
      requires NoDup(entries)
      requires h ==> !redisStorage || forall x :: x in entries ==> Outside(x)
      modifies client
      ensures h ==> Batched(old(client.db), client.db, Elems(entries), Elems(entries),
                            if redisStorage then Elems(entries) else {})
    {
      ghost var db1 := client.db;
      var removingKeys: seq<string> := [];
      var removingKeyTags: seq<string> := [];
      var removingKeyPriorities: seq<string> := [];
      var start := 0;
      var i := 0;
      BatchedNone(db1, entries, redisStorage);
      while i < |entries|
        invariant 0 <= start <= i <= |entries|
        invariant Gathered(entries, start, i, removingKeys, removingKeyTags, removingKeyPriorities, redisStorage)
        invariant i - start < BatchSize
        invariant h ==> BatchedUpTo(db1, client.db, entries, start, redisStorage)
      {
        start, removingKeys, removingKeyTags, removingKeyPriorities :=
          Push(entries, redisStorage, h, db1, start, i, removingKeys, removingKeyTags, removingKeyPriorities);
        i := i + 1;
      }
      FlushBatch(removingKeys, removingKeyPriorities, removingKeyTags, entries, redisStorage, h, db1, start, |entries|);
      if h {
        BatchedAll(db1, client.db, entries, redisStorage);
      }
    }

    /**
     * One round of clean's batch loop: the entry `entries[i]` joins the batch, which is flushed
     * once it holds BatchSize entries, so no batch ever holds more.
     */
    method Push(entries: seq<string>, redisStorage: bool, ghost h: bool, ghost db1: Store.Db, start: nat, i: nat,
                removingKeys: seq<string>, removingKeyTags: seq<string>, removingKeyPriorities: seq<string>)
      returns (start': nat, keys': seq<string>, tagKeys': seq<string>, priorityKeys': seq<string>)
      requires NoDup(entries) && i < |entries| && i - start < BatchSize
      requires Gathered(entries, start, i, removingKeys, removingKeyTags, removingKeyPriorities, redisStorage)
      requires h ==> !redisStorage || forall x :: x in entries ==> Outside(x)
      requires h ==> BatchedUpTo(db1, client.db, entries, start, redisStorage)
      modifies client
      ensures Gathered(entries, start', i + 1, keys', tagKeys', priorityKeys', redisStorage)
      ensures i + 1 - start' < BatchSize
      ensures h ==> BatchedUpTo(db1, client.db, entries, start', redisStorage)
    {
      start' := start;
      keys', tagKeys', priorityKeys' :=
        Gather(entries, start, i, removingKeys, removingKeyTags, removingKeyPriorities, redisStorage);
      if |tagKeys'| >= BatchSize {
        FlushBatch(keys', priorityKeys', tagKeys', entries, redisStorage, h, db1, start, i + 1);
        keys', tagKeys', priorityKeys' := [], [], [];
        start' := i + 1;
        GatheredNone(entries, start', redisStorage);
      }
    }

    /** Adds the entry `entries[i]` to the batch being gathered: its own keys and, for a RedisStorage, itself. */
    static method Gather(entries: seq<string>, ghost start: nat, i: nat, keys: seq<string>, tagKeys: seq<string>,
                         priorityKeys: seq<string>, redisStorage: bool)
      returns (keys': seq<string>, tagKeys': seq<string>, priorityKeys': seq<string>)
      requires Gathered(entries, start, i, keys, tagKeys, priorityKeys, redisStorage) && i < |entries|
      ensures Gathered(entries, start, i + 1, keys', tagKeys', priorityKeys', redisStorage)
    {
      var key := entries[i];
      GatheredOneMore(entries, start, i, keys, tagKeys, priorityKeys, redisStorage);
      keys' := keys;
      if redisStorage {
        keys' := keys + [key];
      }
      tagKeys' := tagKeys + [EntryTags(key)];
      priorityKeys' := priorityKeys + [EntryPriority(key)];
    }

    /** One cleanBatchData call of clean's batch loop, on the entries `entries[start..end]`, at most BatchSize of them. */
    method FlushBatch(removingKeys: seq<string>, removingKeyPriorities: seq<string>, removingKeyTags: seq<string>,
                      entries: seq<string>, redisStorage: bool, ghost h: bool, ghost db1: Store.Db,
                      ghost start: nat, ghost end: nat)
      requires NoDup(entries) && start <= end <= |entries| && end - start <= BatchSize
      requires Gathered(entries, start, end, removingKeys, removingKeyTags, removingKeyPriorities, redisStorage)
      requires h ==> !redisStorage || forall x :: x in entries ==> Outside(x)
      requires h ==> BatchedUpTo(db1, client.db, entries, start, redisStorage)
      modifies client
      ensures h ==> BatchedUpTo(db1, client.db, entries, end, redisStorage)
    {
      ghost var before := client.db;
      CleanBatchData(removingKeys, removingKeyPriorities, removingKeyTags, entries, entries[start..end]);
      if h {
        FlushKeeps(db1, before, client.db, entries, start, end, redisStorage);
      }
    }

    /**
     * clean. With `Cache::ALL` every journal key, and for a RedisStorage every storage key,
     * is deleted and the result is null. Otherwise the entries under the given tags and up to
     * the given priority are selected and un-indexed in batches; the result lists them, or is
     * empty for a RedisStorage, which has had them deleted here.
     */
    method Clean(conds: Conds, redisStorage: bool) returns (r: Result<Option<seq<string>>, Error>)
      modifies client
      ensures r.Failure? <==> conds.all && NothingToWipe(old(client.db), redisStorage)
      ensures r.Failure? ==> r.error == ClientError(DelWithoutKeys) && client.db == old(client.db)
      ensures conds.all && r.Success? ==> r.value == None
      ensures conds.all ==> forall x :: Prefix <= x || (redisStorage && StoragePrefix <= x) ==> Store.At(client.db, x) == None
      ensures conds.all ==> forall x :: !(Prefix <= x) && !(redisStorage && StoragePrefix <= x) ==>
                Store.At(client.db, x) == Store.At(old(client.db), x)
      ensures !conds.all ==> r.Success? && r.value.Some?
      ensures !conds.all && redisStorage ==> r == Success(Some([]))
      ensures !conds.all && !redisStorage ==>
                Elems(r.value.value) == Found(old(client.db), TagList(conds.tags), conds.priority) && NoDup(r.value.value)
      ensures !conds.all && (!redisStorage || EntriesOutside(old(client.db))) ==>
                Cleaned(old(client.db), client.db, TagList(conds.tags), conds.priority, redisStorage)
    {
      ghost var db0 := client.db;
      if conds.all {
        var err := CleanAll(redisStorage);
        if err.Some? {
          return Failure(err.value);
        }
        return Success(None);
      }
      var tags := TagList(conds.tags);
      var entries := Select(tags, conds.priority);
      ghost var db1 := client.db;
      entries := Dedup(entries);
      ghost var h := !redisStorage || EntriesOutside(db0);
      if EntriesOutside(db0) {
        FoundOutside(db0, tags, conds.priority);
      }
      CleanBatches(entries, redisStorage, h);
      if h {
        assert Elems(entries) == Found(db0, tags, conds.priority);
        CleanStages(db0, db1, client.db, tags, conds.priority, redisStorage);
      }
      return Success(if redisStorage then Some([]) else Some(entries));
    }
  }
}
