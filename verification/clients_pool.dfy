/**
 * The shard pool: local clients hold the cache shards and are chosen per key from the key's
 * md5 digest; remote clients only receive invalidations. Iterating the pool yields the local
 * clients, then the remote ones.
 */
module Pool {
  import opened Wrappers
  import opened Strings
  import Client

  /** An element of the arrays the pool is built from: a client, or a value of another type. */
  datatype Candidate = IsClient(client: Client.RedisClient) | NotClient(typeName: string)

  function Rejected(typeName: string): Error {
    InvalidArgument("Instance of Kdyby\\Redis\\RedisClient expected, " + typeName + " given.")
  }

  /**
   * `array_sum(str_split(md5))` under PHP 7 number conversion: a decimal digit counts its
   * value, a hexadecimal letter counts 0.
   */
  function DigitSum(s: string): (n: nat)
    ensures n <= 9 * |s|
    ensures (forall i :: 0 <= i < |s| ==> !IsDigit(s[i])) ==> n == 0
    decreases |s|
  {
    if s == [] then 0
    else (if IsDigit(s[0]) then DigitValue(s[0]) else 0) + DigitSum(s[1..])
  }

  /** The position `choose` picks among `n` local clients for a digest. */
  function ShardIndex(digest: string, n: nat): (i: nat)
    requires n > 0
    ensures i < n
  {
    DigitSum(digest) % n
  }

  /** `e` reports the first element of `items` that is not a client. */
  ghost predicate FirstRejected(items: seq<Candidate>, e: Error) {
    exists k :: 0 <= k < |items| && items[k].NotClient? && e == Rejected(items[k].typeName)
                && forall j :: 0 <= j < k ==> items[j].IsClient?
  }

  /**
   * The constructor's check of one array: every element must be a client; the first one
   * that is not is reported by its type. The clients are kept in the given order.
   */
  method Admit(items: seq<Candidate>) returns (r: Result<seq<Client.RedisClient>, Error>)
    ensures r.Success? <==> forall i :: 0 <= i < |items| ==> items[i].IsClient?
    ensures r.Success? ==> |r.value| == |items| && forall i :: 0 <= i < |items| ==> r.value[i] == items[i].client
    ensures r.Failure? ==> FirstRejected(items, r.error)
  {
    var kept: seq<Client.RedisClient> := [];
    var i := 0;
    while i < |items|
      invariant 0 <= i <= |items|
      invariant |kept| == i
      invariant forall j :: 0 <= j < i ==> items[j].IsClient? && kept[j] == items[j].client
    {
      if items[i].NotClient? {
        return Failure(Rejected(items[i].typeName));
      }
      kept := kept + [items[i].client];
      i := i + 1;
    }
    return Success(kept);
  }

  class ClientsPool {
    const local: seq<Client.RedisClient>
    const remote: seq<Client.RedisClient>
    /** `md5`, as lower-case hexadecimal text. */
    const md5: string -> string

    constructor (local: seq<Client.RedisClient>, remote: seq<Client.RedisClient>, md5: string -> string)
      ensures this.local == local && this.remote == remote && this.md5 == md5
    {
      this.local := local;
      this.remote := remote;
      this.md5 := md5;
    }

    /** Every client of the pool locks through its own connection. */
    predicate Valid() {
      && (forall i :: 0 <= i < |local| ==> local[i].Valid())
      && (forall i :: 0 <= i < |remote| ==> remote[i].Valid())
    }

    /**
     * choose: a local client picked from the key's digest alone. A pool without local
     * clients cannot choose (the modulo by zero fails).
     */
    function Choose(key: string): (c: Client.RedisClient)
      requires |local| > 0
      ensures c in local
      ensures c == local[ShardIndex(md5(key), |local|)]
    {
      local[DigitSum(md5(key)) % |local|]
    }

    /** get: the local client at index `i`, or InvalidArgumentException when there is none. */
    function Get(i: int): (r: Result<Client.RedisClient, Error>)
      ensures 0 <= i < |local| ==> r == Success(local[i])
      ensures !(0 <= i < |local|) ==>
        r == Failure(InvalidArgument("Client with index " + IntToString(i) + " not found, there are only "
                                     + NatToString(|local|) + " clients."))
    {
      if 0 <= i < |local| then Success(local[i])
      else Failure(InvalidArgument("Client with index " + IntToString(i) + " not found, there are only "
                                   + NatToString(|local|) + " clients."))
    }

    /** getIterator: all local clients in order, then all remote clients in order. */
    function All(): (r: seq<Client.RedisClient>)
      ensures |r| == |local| + |remote|
      ensures forall i :: 0 <= i < |local| ==> r[i] == local[i]
      ensures forall j :: 0 <= j < |remote| ==> r[|local| + j] == remote[j]
    {
      local + remote
    }
  }

  /**
   * The constructor: the local array is checked, then the remote one; a non-client element
   * aborts with InvalidArgumentException.
   */
  method NewPool(local: seq<Candidate>, remote: seq<Candidate>, md5: string -> string) returns (r: Result<ClientsPool, Error>)
    ensures r.Success? <==> (forall i :: 0 <= i < |local| ==> local[i].IsClient?) && (forall i :: 0 <= i < |remote| ==> remote[i].IsClient?)
    ensures r.Success? ==> fresh(r.value) && r.value.md5 == md5
                           && |r.value.local| == |local| && (forall i :: 0 <= i < |local| ==> r.value.local[i] == local[i].client)
                           && |r.value.remote| == |remote| && (forall i :: 0 <= i < |remote| ==> r.value.remote[i] == remote[i].client)
    ensures r.Failure? ==> FirstRejected(local, r.error)
                           || ((forall i :: 0 <= i < |local| ==> local[i].IsClient?) && FirstRejected(remote, r.error))
  {
    var l := Admit(local);
    if l.Failure? {
      return Failure(l.error);
    }
    var m := Admit(remote);
    if m.Failure? {
      return Failure(m.error);
    }
    var pool := new ClientsPool(l.value, m.value, md5);
    return Success(pool);
  }

  /** The digest sum splits over concatenation, so every digit of the digest takes part. */
  lemma {:induction false} DigitSumAppend(a: string, b: string)
    ensures DigitSum(a + b) == DigitSum(a) + DigitSum(b)
    decreases |a|
  {
    if a == [] {
      assert a + b == b;
    } else {
      assert (a + b)[1..] == a[1..] + b;
      DigitSumAppend(a[1..], b);
    }
  }
}
