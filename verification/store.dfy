/**
 * The Redis server as an abstract keyspace. Each key holds a string, a set, a sorted set
 * or a list; expiry deadlines are kept beside the values as absolute times in seconds.
 * Every command used by the cache layer is a pure transition of that state.
 */
module Store {
  import opened Wrappers
  import opened Seqs

  datatype Value =
    | Str(s: string)
    | SetOf(members: set<string>)
    | Sorted(scores: map<string, int>)
    | List(items: seq<string>)

  datatype Db = Db(data: map<string, Value>, expiry: map<string, int>)

  /** How a blocking BLPOP ends when the list is empty on arrival. */
  datatype Wait =
    | Delivered   // another process pushed an element within the timeout, and this call took it
    | Expired     // the timeout elapsed
    | Failed      // the client reported an error

  function At(db: Db, k: string): Option<Value> {
    if k in db.data then Some(db.data[k]) else None
  }

  function Ttl(db: Db, k: string): Option<int> {
    if k in db.expiry then Some(db.expiry[k]) else None
  }

  /** Nothing outside `ks` differs between `a` and `b`, neither value nor expiry. */
  ghost predicate SameExcept(a: Db, b: Db, ks: set<string>) {
    forall x :: x !in ks ==> At(b, x) == At(a, x) && Ttl(b, x) == Ttl(a, x)
  }

  lemma SameExceptTrans(a: Db, b: Db, c: Db, ks: set<string>, ls: set<string>)
    requires SameExcept(a, b, ks) && SameExcept(b, c, ls)
    ensures SameExcept(a, c, ks + ls)
  {
  }

  lemma SameExceptWider(a: Db, b: Db, ks: set<string>, ls: set<string>)
    requires SameExcept(a, b, ks) && ks <= ls
    ensures SameExcept(a, b, ls)
  {
  }

  /** Only the value of `k` may differ (its expiry and every other key stay). */
  ghost predicate ValueChangedOnly(a: Db, b: Db, k: string) {
    SameExcept(a, b, {k}) && Ttl(b, k) == Ttl(a, k)
  }

  // ---------------------------------------------------------------------------------
  // Reads. A key holding another type reads as empty; type errors are not modelled.

  /** GET */
  function GetStr(db: Db, k: string): (r: Option<string>)
    ensures r.Some? <==> At(db, k).Some? && At(db, k).value.Str?
  {
    if At(db, k).Some? && At(db, k).value.Str? then Some(At(db, k).value.s) else None
  }

  /** SMEMBERS */
  function Members(db: Db, k: string): set<string> {
    if At(db, k).Some? && At(db, k).value.SetOf? then At(db, k).value.members else {}
  }

  function Scores(db: Db, k: string): map<string, int> {
    if At(db, k).Some? && At(db, k).value.Sorted? then At(db, k).value.scores else map[]
  }

  /** LRANGE k 0 -1 */
  function Items(db: Db, k: string): seq<string> {
    if At(db, k).Some? && At(db, k).value.List? then At(db, k).value.items else []
  }

  /** The members of a sorted set whose score lies in `[lo, hi]` (ZRANGEBYSCORE, as a set). */
  function InRange(scores: map<string, int>, lo: int, hi: int): (r: set<string>)
    ensures forall m :: m in r <==> m in scores && lo <= scores[m] <= hi
  {
    set m | m in scores && lo <= scores[m] <= hi
  }

  /** KEYS prefix* */
  function KeysWithPrefix(db: Db, prefix: string): (r: set<string>)
    ensures forall k :: k in r <==> k in db.data && prefix <= k
  {
    set k | k in db.data && prefix <= k
  }

  // ---------------------------------------------------------------------------------
  // Writes

  /** Replaces the value of `k`, keeping its expiry. */
  function Put(db: Db, k: string, v: Value): (r: Db)
    ensures At(r, k) == Some(v) && ValueChangedOnly(db, r, k)
  {
    Db(db.data[k := v], db.expiry)
  }

  /** DEL of every key in `ks`; deleting an absent key does nothing. */
  function Remove(db: Db, ks: set<string>): (r: Db)
    ensures forall x :: x in ks ==> At(r, x) == None && Ttl(r, x) == None
    ensures SameExcept(db, r, ks)
  {
    Db(map x | x in db.data && x !in ks :: db.data[x], map x | x in db.expiry && x !in ks :: db.expiry[x])
  }

  /** DEL k1 k2 ... */
  function Del(db: Db, ks: seq<string>): (r: Db)
    ensures forall x :: x in ks ==> At(r, x) == None
    ensures SameExcept(db, r, Elems(ks))
  {
    Remove(db, Elems(ks))
  }

  /** Stores a set, deleting the key when the set is empty (Redis never keeps an empty set). */
  function PutSet(db: Db, k: string, s: set<string>): (r: Db)
    ensures Members(r, k) == s
    ensures SameExcept(db, r, {k})
    ensures s != {} ==> Ttl(r, k) == Ttl(db, k)
  {
    if s == {} then Remove(db, {k}) else Put(db, k, SetOf(s))
  }

  function PutSorted(db: Db, k: string, z: map<string, int>): (r: Db)
    ensures Scores(r, k) == z
    ensures SameExcept(db, r, {k})
  {
    if z == map[] then Remove(db, {k}) else Put(db, k, Sorted(z))
  }

  function PutList(db: Db, k: string, l: seq<string>): (r: Db)
    ensures Items(r, k) == l
    ensures SameExcept(db, r, {k})
  {
    if l == [] then Remove(db, {k}) else Put(db, k, List(l))
  }

  /** SET: stores the string and discards any expiry. */
  function Set(db: Db, k: string, v: string): (r: Db)
    ensures GetStr(r, k) == Some(v) && Ttl(r, k) == None
    ensures SameExcept(db, r, {k})
  {
    Db(db.data[k := Str(v)], map x | x in db.expiry && x != k :: db.expiry[x])
  }

  /** SETEX: stores the string to expire `secs` seconds after `now`. */
  function SetEx(db: Db, k: string, secs: int, v: string, now: int): (r: Db)
    ensures GetStr(r, k) == Some(v) && Ttl(r, k) == Some(now + secs)
    ensures SameExcept(db, r, {k})
  {
    Db(db.data[k := Str(v)], db.expiry[k := now + secs])
  }

  /** SETNX: stores only when the key is absent; reports whether it did. */
  function SetNx(db: Db, k: string, v: string): (r: (Db, bool))
    ensures r.1 <==> k !in db.data
    ensures r.1 ==> r.0 == Set(db, k, v)
    ensures !r.1 ==> r.0 == db
  {
    if k in db.data then (db, false) else (Set(db, k, v), true)
  }

  /** GETSET: stores the new string and answers the old one (the expiry is discarded). */
  function GetSet(db: Db, k: string, v: string): (r: (Db, Option<string>))
    ensures r.0 == Set(db, k, v) && r.1 == GetStr(db, k)
  {
    (Set(db, k, v), GetStr(db, k))
  }

  /** EXPIREAT: a deadline in the past deletes the key; an absent key is left alone. */
  function ExpireAt(db: Db, k: string, t: int, now: int): (r: Db)
    ensures k in db.data && t > now ==> At(r, k) == At(db, k) && Ttl(r, k) == Some(t)
    ensures k in db.data && t <= now ==> At(r, k) == None
    ensures k !in db.data ==> r == db
    ensures SameExcept(db, r, {k})
  {
    if k !in db.data then db
    else if t <= now then Remove(db, {k})
    else Db(db.data, db.expiry[k := t])
  }

  /** EXPIRE: the same, `secs` seconds after `now`. */
  function Expire(db: Db, k: string, secs: int, now: int): (r: Db)
    ensures r == ExpireAt(db, k, now + secs, now)
  {
    ExpireAt(db, k, now + secs, now)
  }

  /** Redis's answer to a SETEX whose TTL is not positive; the command then changes nothing. */
  const SetExRefused := "ERR invalid expire time in 'setex' command"

  /** A store with this optional TTL goes through: a SET without one, or a SETEX with a positive one. */
  predicate Accepts(ttl: Option<int>) {
    ttl.None? || ttl.value > 0
  }

  // ---------------------------------------------------------------------------------
  // Expiry. Redis drops a key once its deadline has passed. The model drops expired keys
  // at the explicit steps `Evict` stands for (Server.Redis.Tick), not in between.

  /** The keys whose deadline lies at or before `now`. */
  function Due(db: Db, now: int): (r: set<string>)
    ensures forall x :: x in r <==> Ttl(db, x).Some? && Ttl(db, x).value <= now
  {
    set x | x in db.expiry && db.expiry[x] <= now
  }

  /** No key of `db` is past its deadline at `now`. */
  ghost predicate Fresh(db: Db, now: int) {
    forall x :: Ttl(db, x).Some? ==> Ttl(db, x).value > now
  }

  /** The keyspace as seen at `now`: every key whose deadline has passed is gone, TTL and all. */
  function Evict(db: Db, now: int): (r: Db)
    ensures forall x :: Ttl(db, x).Some? && Ttl(db, x).value <= now ==> At(r, x) == None && Ttl(r, x) == None
    ensures forall x :: Ttl(db, x).None? || Ttl(db, x).value > now ==> At(r, x) == At(db, x) && Ttl(r, x) == Ttl(db, x)
    ensures Fresh(r, now)
  {
    Remove(db, Due(db, now))
  }

  /** Two keyspaces that agree on every key's value and expiry are the same. */
  lemma SameDb(a: Db, b: Db)
    requires forall x :: At(a, x) == At(b, x) && Ttl(a, x) == Ttl(b, x)
    ensures a == b
  {
    assert a.data.Keys == b.data.Keys by {
      forall x | x in a.data ensures x in b.data { assert At(a, x).Some?; }
      forall x | x in b.data ensures x in a.data { assert At(b, x).Some?; }
    }
    assert a.expiry.Keys == b.expiry.Keys by {
      forall x | x in a.expiry ensures x in b.expiry { assert Ttl(a, x).Some?; }
      forall x | x in b.expiry ensures x in a.expiry { assert Ttl(b, x).Some?; }
    }
    forall x | x in a.data ensures a.data[x] == b.data[x] { assert At(a, x) == At(b, x); }
    forall x | x in a.expiry ensures a.expiry[x] == b.expiry[x] { assert Ttl(a, x) == Ttl(b, x); }
  }

  /** Eviction leaves a keyspace without expired keys as it is; in particular it is idempotent. */
  lemma EvictFresh(db: Db, now: int)
    requires Fresh(db, now)
    ensures Evict(db, now) == db
  {
    SameDb(Evict(db, now), db);
  }

  /** Evicting at `now` and then at a later time is evicting once at the later time. */
  lemma EvictLater(db: Db, now: int, later: int)
    requires now <= later
    ensures Evict(Evict(db, now), later) == Evict(db, later)
  {
    SameDb(Evict(Evict(db, now), later), Evict(db, later));
  }

  /** SADD k m: answers 1 when `m` was not yet a member. */
  function SAdd(db: Db, k: string, m: string): (r: (Db, nat))
    ensures Members(r.0, k) == Members(db, k) + {m}
    ensures r.1 == if m in Members(db, k) then 0 else 1
    ensures SameExcept(db, r.0, {k})
  {
    (PutSet(db, k, Members(db, k) + {m}), if m in Members(db, k) then 0 else 1)
  }

  /** SREM k m1 m2 ... */
  function SRem(db: Db, k: string, ms: set<string>): (r: Db)
    ensures Members(r, k) == Members(db, k) - ms
    ensures SameExcept(db, r, {k})
  {
    if k in db.data && db.data[k].SetOf? then PutSet(db, k, Members(db, k) - ms) else db
  }

  /** ZADD k score m */
  function ZAdd(db: Db, k: string, score: int, m: string): (r: Db)
    ensures Scores(r, k) == Scores(db, k)[m := score]
    ensures SameExcept(db, r, {k})
  {
    PutSorted(db, k, Scores(db, k)[m := score])
  }

  /** ZREM k m */
  function ZRem(db: Db, k: string, m: string): (r: Db)
    ensures Scores(r, k) == Scores(db, k) - {m}
    ensures SameExcept(db, r, {k})
  {
    if k in db.data && db.data[k].Sorted? then PutSorted(db, k, Scores(db, k) - {m}) else db
  }

  /** ZREMRANGEBYSCORE k lo hi */
  function ZRemRangeByScore(db: Db, k: string, lo: int, hi: int): (r: Db)
    ensures Scores(r, k) == Scores(db, k) - InRange(Scores(db, k), lo, hi)
    ensures SameExcept(db, r, {k})
  {
    if k in db.data && db.data[k].Sorted? then PutSorted(db, k, Scores(db, k) - InRange(Scores(db, k), lo, hi)) else db
  }

  /** RPUSH k v */
  function RPush(db: Db, k: string, v: string): (r: Db)
    ensures Items(r, k) == Items(db, k) + [v]
    ensures SameExcept(db, r, {k})
  {
    PutList(db, k, Items(db, k) + [v])
  }

  /** Every element of `l` except those equal to `v`. */
  function Without(l: seq<string>, v: string): (r: seq<string>)
    ensures v !in r && forall x :: x in r <==> x in l && x != v
    decreases |l|
  {
    if l == [] then []
    else (if l[0] == v then [] else [l[0]]) + Without(l[1..], v)
  }

  /** LREM k 0 v: removes every occurrence. */
  function LRem(db: Db, k: string, v: string): (r: Db)
    ensures Items(r, k) == Without(Items(db, k), v)
    ensures SameExcept(db, r, {k})
  {
    if k in db.data && db.data[k].List? then PutList(db, k, Without(Items(db, k), v)) else db
  }

  /** LPOP k: the head of the list, if any. */
  function LPop(db: Db, k: string): (r: (Db, Option<string>))
    ensures Items(db, k) == [] ==> r == (db, None)
    ensures Items(db, k) != [] ==> r.1 == Some(Items(db, k)[0]) && Items(r.0, k) == Items(db, k)[1..]
    ensures SameExcept(db, r.0, {k})
  {
    if Items(db, k) == [] then (db, None) else (PutList(db, k, Items(db, k)[1..]), Some(Items(db, k)[0]))
  }
  /**
   * BLPOP k: takes the head of the list at once when there is one. On an empty list the
   * outcome of waiting is `wait`: a token pushed by another process within the timeout
   * (taken at once, so the list stays empty), the empty answer of an elapsed timeout, or
   * a client error.
   */
  function BLPop(db: Db, k: string, wait: Wait): (r: (Db, Result<Option<string>, string>))
    ensures wait == Failed ==> r.1.Failure? && r.0 == db
    ensures wait != Failed && Items(db, k) != [] ==>
      r.1 == Success(Some(Items(db, k)[0])) && r.0 == LPop(db, k).0
    ensures wait == Delivered && Items(db, k) == [] ==> r.1.Success? && r.1.value.Some? && r.0 == db
    ensures wait == Expired && Items(db, k) == [] ==> r.1 == Success(None) && r.0 == db
  {
    if wait == Failed then (db, Failure("connection lost"))
    else if Items(db, k) != [] then (LPop(db, k).0, Success(Some(Items(db, k)[0])))
    else if wait == Delivered then (db, Success(Some("1")))
    else (db, Success(None))
  }
}

/** A connection's view of the server: the commands as methods over the shared keyspace. */
module Server {
  import opened Wrappers
  import opened Seqs
  import Store

  /** Lists the elements of a set, in an unspecified order. */
  method Enumerate(s: set<string>) returns (r: seq<string>)
    ensures Elems(r) == s && NoDup(r)
  {
    r := [];
    var rest := s;
    while rest != {}
      invariant Elems(r) + rest == s && Elems(r) !! rest && NoDup(r)
      decreases rest
    {
      var x :| x in rest;
      r := r + [x];
      rest := rest - {x};
    }
  }

  class Redis {
    var db: Store.Db

    constructor (initial: Store.Db)
      ensures db == initial
    {
      db := initial;
    }

    method Get(k: string) returns (v: Option<string>)
      ensures v == Store.GetStr(db, k)
    {
      v := Store.GetStr(db, k);
    }

    /** MGET: one answer per key, in order. */
    method MGet(ks: seq<string>) returns (vs: seq<Option<string>>)
      ensures |vs| == |ks| && forall i :: 0 <= i < |ks| ==> vs[i] == Store.GetStr(db, ks[i])
    {
      vs := seq(|ks|, i requires 0 <= i < |ks| reads this => Store.GetStr(db, ks[i]));
    }

    method Set(k: string, v: string)
      modifies this
      ensures db == Store.Set(old(db), k, v)
    {
      db := Store.Set(db, k, v);
    }

    /** SETEX: a TTL that is not positive is refused with an error reply and changes nothing. */
    method SetEx(k: string, secs: int, v: string, now: int) returns (err: Option<string>)
      modifies this
      ensures secs <= 0 ==> err == Some(Store.SetExRefused) && db == old(db)
      ensures secs > 0 ==> err == None && db == Store.SetEx(old(db), k, secs, v, now)
    {
      if secs <= 0 {
        return Some(Store.SetExRefused);
      }
      db := Store.SetEx(db, k, secs, v, now);
      err := None;
    }

    /** Time passing up to `now`: every key whose deadline has come is dropped. */
    method Tick(now: int)
      modifies this
      ensures db == Store.Evict(old(db), now)
    {
      db := Store.Evict(db, now);
    }

    method SetNx(k: string, v: string) returns (stored: bool)
      modifies this
      ensures (db, stored) == Store.SetNx(old(db), k, v)
    {
      var r := Store.SetNx(db, k, v);
      db, stored := r.0, r.1;
    }

    method GetSet(k: string, v: string) returns (previous: Option<string>)
      modifies this
      ensures (db, previous) == Store.GetSet(old(db), k, v)
    {
      var r := Store.GetSet(db, k, v);
      db, previous := r.0, r.1;
    }

    method Del(ks: seq<string>)
      modifies this
      ensures db == Store.Del(old(db), ks)
    {
      db := Store.Del(db, ks);
    }

    method Expire(k: string, secs: int, now: int)
      modifies this
      ensures db == Store.Expire(old(db), k, secs, now)
    {
      db := Store.Expire(db, k, secs, now);
    }

    method ExpireAt(k: string, t: int, now: int)
      modifies this
      ensures db == Store.ExpireAt(old(db), k, t, now)
    {
      db := Store.ExpireAt(db, k, t, now);
    }

    method SAdd(k: string, m: string) returns (added: nat)
      modifies this
      ensures (db, added) == Store.SAdd(old(db), k, m)
    {
      var r := Store.SAdd(db, k, m);
      db, added := r.0, r.1;
    }

    method SRem(k: string, ms: seq<string>)
      modifies this
      ensures db == Store.SRem(old(db), k, Elems(ms))
    {
      db := Store.SRem(db, k, Elems(ms));
    }

    method SMembers(k: string) returns (r: seq<string>)
      ensures Elems(r) == Store.Members(db, k) && NoDup(r)
    {
      r := Enumerate(Store.Members(db, k));
    }

    /** SUNION of the sets at `ks`. */
    method SUnion(ks: seq<string>) returns (r: seq<string>)
      ensures forall m :: m in r <==> exists k :: k in ks && m in Store.Members(db, k)
      ensures NoDup(r)
    {
      var u := set k, m | k in ks && m in Store.Members(db, k) :: m;
      r := Enumerate(u);
      forall m | exists k :: k in ks && m in Store.Members(db, k)
        ensures m in r
      {
        var k :| k in ks && m in Store.Members(db, k);
        assert m in u;
        assert m in Elems(r);
      }
      forall m | m in r
        ensures exists k :: k in ks && m in Store.Members(db, k)
      {
        assert m in Elems(r);
        assert m in u;
      }
    }

    method ZAdd(k: string, score: int, m: string)
      modifies this
      ensures db == Store.ZAdd(old(db), k, score, m)
    {
      db := Store.ZAdd(db, k, score, m);
    }

    method ZRem(k: string, m: string)
      modifies this
      ensures db == Store.ZRem(old(db), k, m)
    {
      db := Store.ZRem(db, k, m);
    }

    /** ZRANGEBYSCORE; the members come in an unspecified order. */
    method ZRangeByScore(k: string, lo: int, hi: int) returns (r: seq<string>)
      ensures Elems(r) == Store.InRange(Store.Scores(db, k), lo, hi) && NoDup(r)
    {
      r := Enumerate(Store.InRange(Store.Scores(db, k), lo, hi));
    }

    method ZRemRangeByScore(k: string, lo: int, hi: int)
      modifies this
      ensures db == Store.ZRemRangeByScore(old(db), k, lo, hi)
    {
      db := Store.ZRemRangeByScore(db, k, lo, hi);
    }

    method RPush(k: string, v: string)
      modifies this
      ensures db == Store.RPush(old(db), k, v)
    {
      db := Store.RPush(db, k, v);
    }

    method LRem(k: string, v: string)
      modifies this
      ensures db == Store.LRem(old(db), k, v)
    {
      db := Store.LRem(db, k, v);
    }

    method LRange(k: string) returns (r: seq<string>)
      ensures r == Store.Items(db, k)
    {
      r := Store.Items(db, k);
    }

    /** KEYS prefix*; the keys come in an unspecified order. */
    method Keys(prefix: string) returns (r: seq<string>)
      ensures Elems(r) == Store.KeysWithPrefix(db, prefix) && NoDup(r)
    {
      r := Enumerate(Store.KeysWithPrefix(db, prefix));
    }

    method BLPop(k: string, wait: Store.Wait) returns (r: Result<Option<string>, string>)
      modifies this
      ensures (db, r) == Store.BLPop(old(db), k, wait)
    {
      var p := Store.BLPop(db, k, wait);
      db, r := p.0, p.1;
    }
  }
}
