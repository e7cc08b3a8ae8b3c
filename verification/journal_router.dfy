/**
 * The sharded script journal: a write goes through the client the pool chooses for the key;
 * a clean is sent to every client of the pool, in iteration order, and the answers are
 * merged with `array_merge`.
 */
module JournalRouting {
  import opened Wrappers
  import Client
  import Pool
  import LuaJournal

  /**
   * `array_merge` of two clean results under PHP 7: two lists are concatenated; a null on
   * either side makes the merge fail and yield null, which then absorbs every later merge.
   */
  function Merge(acc: Option<seq<string>>, next: Option<seq<string>>): (r: Option<seq<string>>)
    ensures r.Some? <==> acc.Some? && next.Some?
    ensures r.Some? ==> |r.value| == |acc.value| + |next.value| && r.value[..|acc.value|] == acc.value
                        && r.value[|acc.value|..] == next.value
  {
    if acc.None? || next.None? then None else Some(acc.value + next.value)
  }

  /** The router's result for the shards' answers in order, starting from `[]`. */
  function Merged(results: seq<Option<seq<string>>>): Option<seq<string>>
    decreases |results|
  {
    if results == [] then Some([]) else Merge(Merged(results[..|results| - 1]), results[|results| - 1])
  }

  /** The plain concatenation of lists, in order. */
  function Concat(lists: seq<seq<string>>): seq<string>
    decreases |lists|
  {
    if lists == [] then [] else Concat(lists[..|lists| - 1]) + lists[|lists| - 1]
  }

  /**
   * The merged result is null exactly when some shard answered null; otherwise it is the
   * concatenation of the shards' lists in order, with nothing deduplicated across shards.
   */
  lemma {:induction false} MergedIsConcat(results: seq<Option<seq<string>>>)
    ensures Merged(results).None? <==> exists i :: 0 <= i < |results| && results[i].None?
    ensures (forall i :: 0 <= i < |results| ==> results[i].Some?) ==>
              Merged(results) == Some(Concat(seq(|results|, i requires 0 <= i < |results| => results[i].value)))
    decreases |results|
  {
    if results != [] {
      var front := results[..|results| - 1];
      MergedIsConcat(front);
      assert forall i :: 0 <= i < |front| ==> front[i] == results[i];
      if forall i :: 0 <= i < |results| ==> results[i].Some? {
        var all := seq(|results|, i requires 0 <= i < |results| => results[i].value);
        assert all[..|all| - 1] == seq(|front|, i requires 0 <= i < |front| => front[i].value);
      }
    }
  }

  /** The concatenation keeps every element of every list, and its length is the sum of theirs. */
  lemma {:induction false} ConcatMembers(lists: seq<seq<string>>, x: string)
    ensures x in Concat(lists) <==> exists i :: 0 <= i < |lists| && x in lists[i]
    decreases |lists|
  {
    if lists != [] {
      var front := lists[..|lists| - 1];
      ConcatMembers(front, x);
      assert forall i :: 0 <= i < |front| ==> front[i] == lists[i];
    }
  }

  /** What each shard contributes: the result its answer yields (a failing answer yields none). */
  function Answers(replies: seq<LuaJournal.Reply>, redisStorage: bool): (r: seq<Option<seq<string>>>)
    ensures |r| == |replies|
    ensures forall i :: 0 <= i < |replies| && !replies[i].Other? ==> r[i] == LuaJournal.CleanResult(replies[i], redisStorage).value
  {
    seq(|replies|, i requires 0 <= i < |replies| =>
      var c := LuaJournal.CleanResult(replies[i], redisStorage); if c.Success? then c.value else None)
  }

  /** The first `n` shards answered without failing. */
  ghost predicate Answered(replies: seq<LuaJournal.Reply>, n: nat) {
    forall j :: 0 <= j < n && j < |replies| ==> !replies[j].Other?
  }

  lemma AnsweredOneMore(replies: seq<LuaJournal.Reply>, n: nat)
    requires n < |replies| && Answered(replies, n) && !replies[n].Other?
    ensures Answered(replies, n + 1)
  {
  }

  /** The router's result after one more shard that answered `one`. */
  lemma MergedStep(replies: seq<LuaJournal.Reply>, redisStorage: bool, i: nat, one: Result<Option<seq<string>>, Error>)
    requires i < |replies| && one == LuaJournal.CleanResult(replies[i], redisStorage) && one.Success?
    ensures !replies[i].Other?
    ensures Merged(Answers(replies, redisStorage)[..i + 1]) == Merge(Merged(Answers(replies, redisStorage)[..i]), one.value)
  {
    var answers := Answers(replies, redisStorage);
    assert answers[..i + 1][..i] == answers[..i];
  }

  /**
   * The calls after `calls0` are the clean script sent to the shards in order, one each,
   * with the same arguments.
   */
  ghost predicate SentToShards(calls0: seq<LuaJournal.Call>, calls: seq<LuaJournal.Call>, shards: seq<Client.RedisClient>,
                               script: map<string, string>, args: string) {
    && |calls0| <= |calls| <= |calls0| + |shards|
    && calls[..|calls0|] == calls0
    && (|calls| > |calls0| ==> "clean" in script)
    && forall k :: |calls0| <= k < |calls| ==>
         "clean" in script && calls[k] == LuaJournal.Call(shards[k - |calls0|], script["clean"], [], args)
  }

  lemma SentOneMore(calls0: seq<LuaJournal.Call>, before: seq<LuaJournal.Call>, after: seq<LuaJournal.Call>,
                    shards: seq<Client.RedisClient>, memo: map<string, string>, script: map<string, string>, args: string)
    requires SentToShards(calls0, before, shards, memo, args) && |before| < |calls0| + |shards|
    requires "clean" in script && script == memo["clean" := script["clean"]]
    requires |before| > |calls0| ==> script == memo
    requires after == before + [LuaJournal.Call(shards[|before| - |calls0|], script["clean"], [], args)]
    ensures SentToShards(calls0, after, shards, script, args)
  {
    assert after[..|calls0|] == before[..|calls0|];
  }

  class JournalRouter {
    const clients: Pool.ClientsPool
    /** The script journal whose connection the router re-points before each call. */
    const journal: LuaJournal.ScriptJournal

    constructor (clients: Pool.ClientsPool, journal: LuaJournal.ScriptJournal)
      ensures this.clients == clients && this.journal == journal
    {
      this.clients := clients;
      this.journal := journal;
    }

    /** write: the key's own client runs the write script. */
    method Write(key: string, dp: map<string, LuaJournal.Arg>, reply: LuaJournal.Reply) returns (r: Result<(), Error>)
      requires |clients.local| > 0
      modifies journal
      ensures journal.client == clients.Choose(key)
      ensures "write" in journal.script
      ensures journal.calls == old(journal.calls)
                + [LuaJournal.Call(clients.Choose(key), journal.script["write"], [LuaJournal.Escape(key)],
                                   journal.encode(LuaJournal.FlattenDp(dp)))]
      ensures r.Success? <==> reply == LuaJournal.True
    {
      journal.client := clients.Choose(key);
      r := journal.Write(key, dp, reply);
    }

    /**
     * clean: every client of the pool, local then remote, runs the clean script with the
     * same conditions and the same storage argument; `replies[i]` is the answer of the i-th.
     * A failing answer aborts with its exception; otherwise the answers are merged.
     */
    method Clean(conds: map<string, LuaJournal.Arg>, redisStorage: bool, replies: seq<LuaJournal.Reply>)
      returns (r: Result<Option<seq<string>>, Error>)
      requires |replies| == |clients.All()|
      modifies journal
      ensures r.Failure? <==> exists i :: 0 <= i < |replies| && replies[i].Other?
      ensures r.Failure? ==> r.error.ClientError?
      ensures r.Success? ==> r.value == Merged(Answers(replies, redisStorage))
      ensures r.Success? ==> |journal.calls| == |old(journal.calls)| + |replies|
      ensures |journal.calls| > |old(journal.calls)| ==> "clean" in journal.script
      ensures SentToShards(old(journal.calls), journal.calls, clients.All(), journal.script,
                           journal.encode(LuaJournal.FlattenDp(LuaJournal.Sent(conds, redisStorage))))
    {
      ghost var calls0 := journal.calls;
      var shards := clients.All();
      var args := journal.encode(LuaJournal.FlattenDp(LuaJournal.Sent(conds, redisStorage)));
      ghost var answers := Answers(replies, redisStorage);
      var result: Option<seq<string>> := Some([]);
      var i := 0;
      while i < |shards|
        invariant 0 <= i <= |shards|
        invariant Answered(replies, i)
        invariant result == Merged(answers[..i])
        invariant |journal.calls| == |calls0| + i
        invariant i > 0 ==> "clean" in journal.script
        invariant SentToShards(calls0, journal.calls, shards, journal.script, args)
      {
        ghost var before := journal.calls;
        ghost var memo := journal.script;
        journal.client := shards[i];
        var one := journal.Clean(conds, redisStorage, replies[i]);
        SentOneMore(calls0, before, journal.calls, shards, memo, journal.script, args);
        if one.Failure? {
          return Failure(one.error);
        }
        MergedStep(replies, redisStorage, i, one);
        AnsweredOneMore(replies, i);
        result := Merge(result, one.value);
        i := i + 1;
      }
      assert answers[..i] == answers;
      return Success(result);
    }
  }
}
