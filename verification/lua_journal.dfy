/**
 * The PHP side of the script journal: the journal logic itself runs as server-side scripts,
 * whose replies are inputs here. What the PHP side owns is the key escaping, the filtering of
 * the dependency array, the check of the script's reply and the memo of loaded scripts.
 */
module LuaJournal {
  import opened Wrappers
  import opened Strings
  import opened Seqs
  import Client

  const Backslash: char := '\\'

  // ---------------------------------------------------------------------------------
  // Escaping of keys for the scripts, where `:` separates the parts of a journal key.

  /** The escape `write` applies: `\` to `\\`, then `:` to `\:`, then NUL to `:`, in three passes. */
  function Escape(key: string): (r: string)
    ensures NUL !in r
  {
    ReplaceChar(ReplaceChar(ReplaceChar(key, Backslash, [Backslash, Backslash]), ':', [Backslash, ':']), NUL, ":")
  }

  /** What the three passes make of one character. */
  function EscapeChar(c: char): string {
    if c == Backslash then [Backslash, Backslash]
    else if c == ':' then [Backslash, ':']
    else if c == NUL then ":"
    else [c]
  }

  lemma EscapeOne(c: char)
    ensures Escape([c]) == EscapeChar(c)
  {
    assert [c][1..] == [];
    var r1 := ReplaceChar([c], Backslash, [Backslash, Backslash]);
    assert r1 == if c == Backslash then [Backslash, Backslash] else [c];
    var r2 := ReplaceChar(r1, ':', [Backslash, ':']);
    if c == Backslash {
      assert r1[1..] == [Backslash];
      assert r2 == [Backslash, Backslash];
      assert r2[1..] == [Backslash];
    } else {
      assert r2 == if c == ':' then [Backslash, ':'] else [c];
      if c == ':' {
        assert r2[1..] == [':'];
      }
    }
  }

  /** The passes work character by character. */
  lemma EscapeCons(c: char, rest: string)
    ensures Escape([c] + rest) == EscapeChar(c) + Escape(rest)
  {
    var p1 := [Backslash, Backslash];
    var p2 := [Backslash, ':'];
    ReplaceCharAppend([c], rest, Backslash, p1);
    var a1 := ReplaceChar([c], Backslash, p1);
    var b1 := ReplaceChar(rest, Backslash, p1);
    ReplaceCharAppend(a1, b1, ':', p2);
    var a2 := ReplaceChar(a1, ':', p2);
    var b2 := ReplaceChar(b1, ':', p2);
    ReplaceCharAppend(a2, b2, NUL, ":");
    EscapeOne(c);
  }

  /** The first unescape pass: a `:` not directly after a `\` becomes NUL. */
  function SeparatorsBack(s: string, afterBackslash: bool): (r: string)
    ensures |r| == |s|
    decreases |s|
  {
    if s == [] then []
    else [if s[0] == ':' && !afterBackslash then NUL else s[0]] + SeparatorsBack(s[1..], s[0] == Backslash)
  }

  /** The later unescape passes: each `\` followed by `c`, scanned left to right, becomes `c`. */
  function Collapse(s: string, c: char): (r: string)
    ensures |r| <= |s|
    decreases |s|
  {
    if s == [] then []
    else if |s| >= 2 && s[0] == Backslash && s[1] == c then [c] + Collapse(s[2..], c)
    else [s[0]] + Collapse(s[1..], c)
  }

  /** The `$unescape` closure of `clean`. */
  function Unescape(s: string): (r: string)
    ensures |r| <= |s|
  {
    Collapse(Collapse(SeparatorsBack(s, false), ':'), Backslash)
  }

  /** A key with its colons escaped and nothing else changed. */
  function ColonsEscaped(k: string): string
    decreases |k|
  {
    if k == [] then []
    else (if k[0] == ':' then [Backslash, ':'] else [k[0]]) + ColonsEscaped(k[1..])
  }

  lemma {:induction false} SeparatorsBackOfEscape(k: string)
    requires Backslash !in k
    ensures SeparatorsBack(Escape(k), false) == ColonsEscaped(k)
    decreases |k|
  {
    if k != [] {
      var c, rest := k[0], k[1..];
      assert k == [c] + rest;
      EscapeCons(c, rest);
      var e := Escape(rest);
      SeparatorsBackOfEscape(rest);
      SeparatorsBackCons(c, e);
    }
  }

  /** The first unescape pass over one escaped character that is not a `\`, then the rest. */
  lemma SeparatorsBackCons(c: char, e: string)
    requires c != Backslash
    ensures SeparatorsBack(EscapeChar(c) + e, false) == (if c == ':' then [Backslash, ':'] else [c]) + SeparatorsBack(e, false)
  {
    if c == ':' {
      assert EscapeChar(c) == [Backslash, ':'];
      assert ([Backslash, ':'] + e)[1..] == [':'] + e;
      assert ([':'] + e)[1..] == e;
    } else if c == NUL {
      assert EscapeChar(c) == [':'];
      assert ([':'] + e)[1..] == e;
    } else {
      assert EscapeChar(c) == [c];
      assert ([c] + e)[1..] == e;
    }
  }

  lemma {:induction false} CollapseColons(k: string)
    requires Backslash !in k
    ensures Collapse(ColonsEscaped(k), ':') == k
    decreases |k|
  {
    if k != [] {
      var rest := k[1..];
      CollapseColons(rest);
      var e := ColonsEscaped(rest);
      if k[0] == ':' {
        assert ([Backslash, ':'] + e)[2..] == e;
      } else {
        assert ([k[0]] + e)[1..] == e;
      }
    }
  }

  lemma {:induction false} CollapseAbsent(s: string, c: char)
    requires Backslash !in s
    ensures Collapse(s, c) == s
    decreases |s|
  {
    if s != [] {
      CollapseAbsent(s[1..], c);
    }
  }

  /** A key without backslashes comes back from the script unchanged. */
  lemma UnescapeOfEscape(k: string)
    requires Backslash !in k
    ensures Unescape(Escape(k)) == k
  {
    SeparatorsBackOfEscape(k);
    CollapseColons(k);
    CollapseAbsent(k, Backslash);
  }

  /** A backslash directly before a namespace separator does not come back: `\`NUL returns as `\:`. */
  lemma BackslashBeforeSeparator()
    ensures Escape([Backslash, NUL]) == [Backslash, Backslash, ':']
    ensures Unescape([Backslash, Backslash, ':']) == [Backslash, ':']
    ensures Unescape(Escape([Backslash, NUL])) != [Backslash, NUL]
  {
    EscapeCons(Backslash, [NUL]);
    EscapeOne(NUL);
    var e := [Backslash, Backslash, ':'];
    assert e[1..] == [Backslash, ':'];
    assert e[2..] == [':'];
    assert [':'][1..] == [];
    assert SeparatorsBack([':'], true) == [':'];
    assert SeparatorsBack(e[1..], true) == [Backslash, ':'];
    assert SeparatorsBack(e, false) == e;
    assert Collapse(e[1..], ':') == [':'];
    var c1 := Collapse(e, ':');
    assert c1 == [Backslash, ':'];
    assert c1[2..] == [];
    assert Collapse(c1, Backslash) == [Backslash, ':'] by {
      assert c1[1..] == [':'];
    }
  }

  // ---------------------------------------------------------------------------------
  // The dependency array sent to the scripts.

  /** A value of a PHP dependency array. */
  datatype Arg = Null | Text(s: string) | Number(n: int) | Flag(b: bool) | List(items: seq<Arg>)

  const Tags := "tags"
  const Priority := "priority"
  const All := "all"
  const DeleteEntries := "delete-entries"
  const Forwarded: set<string> := {Tags, Priority, All, DeleteEntries}

  /** The `(array)` cast of a value that is set. */
  function ToList(v: Arg): (r: Arg)
    requires v != Null
    ensures r.List?
    ensures v.List? ==> r == v
    ensures !v.List? ==> r.items == [v]
  {
    if v.List? then v else List([v])
  }

  /** flattenDp before its JSON encoding: only the four forwarded entries, a set tag made a list. */
  function FlattenDp(a: map<string, Arg>): (r: map<string, Arg>)
    ensures r.Keys == a.Keys * Forwarded
    ensures forall k :: k in r && k != Tags ==> r[k] == a[k]
    ensures Tags in r ==> (a[Tags] == Null ==> r[Tags] == Null) && (a[Tags] != Null ==> r[Tags] == ToList(a[Tags]))
  {
    map k | k in a.Keys && k in Forwarded :: if k == Tags && a[k] != Null then ToList(a[k]) else a[k]
  }

  /** Flattening an already flat array changes nothing. */
  lemma FlattenDpIdempotent(a: map<string, Arg>)
    ensures FlattenDp(FlattenDp(a)) == FlattenDp(a)
  {
  }

  /** Entries other than the four never reach the scripts, and a set tag always arrives as a list. */
  lemma FlattenDpDrops(a: map<string, Arg>, k: string)
    ensures k !in Forwarded ==> k !in FlattenDp(a)
    ensures k == Tags && k in a && a[k] != Null ==> FlattenDp(a)[k].List?
  {
  }

  // ---------------------------------------------------------------------------------
  // Script calls.

  /** What a script returns, as seen by PHP. */
  datatype Reply = True | Items(keys: seq<string>) | Other

  /** One evaluated script: the connection it went to, its source, its KEYS and its single JSON argument. */
  datatype Call = Call(client: Client.RedisClient, script: string, keys: seq<string>, args: string)

  /** The exception of a failed script call (the driver's last error, which PHP appends, is not modelled). */
  function ScriptFailure(call: string): Error {
    ClientError("Failed to successfully execute lua script journal." + call)
  }

  /**
   * What clean makes of a reply: anything but a list or TRUE fails; a RedisStorage gets `[]`;
   * otherwise a list comes back deduplicated and unescaped and TRUE becomes null.
   */
  function CleanResult(reply: Reply, redisStorage: bool): (r: Result<Option<seq<string>>, Error>)
    ensures reply.Other? <==> r.Failure?
    ensures r.Failure? ==> r.error.ClientError?
    ensures r.Success? && redisStorage ==> r.value == Some([])
    ensures r.Success? && !redisStorage && reply.Items? ==> r.value.Some? && |r.value.value| == |Dedup(reply.keys)|
                                                            && Elems(r.value.value) == set k | k in reply.keys :: Unescape(k)
    ensures r.Success? && !redisStorage && reply.True? ==> r.value == None
  {
    if reply.Other? then Failure(ScriptFailure("clean()"))
    else if redisStorage then Success(Some([]))
    else if reply.Items? then Success(Some(UnescapeAll(reply.keys)))
    else Success(None)
  }

  /** The unescaped keys of a reply, after `array_unique`. */
  function UnescapeAll(keys: seq<string>): (r: seq<string>)
    ensures |r| == |Dedup(keys)|
    ensures forall i :: 0 <= i < |r| ==> r[i] == Unescape(Dedup(keys)[i])
  {
    var u := Dedup(keys);
    seq(|u|, i requires 0 <= i < |u| => Unescape(u[i]))
  }

  /** Replies for keys without backslashes come back as the written keys, each once. */
  lemma UnescapeAllOfEscaped(written: seq<string>, keys: seq<string>)
    requires forall k :: k in written ==> Backslash !in k
    requires forall x :: x in keys <==> exists k :: k in written && x == Escape(k)
    ensures forall k :: k in written ==> k in UnescapeAll(keys)
    ensures forall x :: x in UnescapeAll(keys) ==> x in written
  {
    var u := Dedup(keys);
    forall k | k in written
      ensures k in UnescapeAll(keys)
    {
      assert Escape(k) in keys;
      assert Escape(k) in u;
      var i :| 0 <= i < |u| && u[i] == Escape(k);
      UnescapeOfEscape(k);
      assert UnescapeAll(keys)[i] == k;
    }
    forall x | x in UnescapeAll(keys)
      ensures x in written
    {
      var i :| 0 <= i < |UnescapeAll(keys)| && UnescapeAll(keys)[i] == x;
      assert u[i] in keys;
      var k :| k in written && u[i] == Escape(k);
      UnescapeOfEscape(k);
    }
  }

  class ScriptJournal {
    /** Source text of the scripts on disk, by file name; file access is not modelled. */
    const source: string -> string
    /** `Json::encode` of a dependency array. */
    const encode: map<string, Arg> -> string
    /** The memo of loaded scripts, by name. */
    var script: map<string, string>
    /** The scripts evaluated so far, in order. */
    var calls: seq<Call>
    /** The connection the scripts are sent through. */
    var client: Client.RedisClient

    constructor (client: Client.RedisClient, source: string -> string, encode: map<string, Arg> -> string)
      ensures this.client == client && this.source == source && this.encode == encode
      ensures script == map[] && calls == []
    {
      this.client := client;
      this.source := source;
      this.encode := encode;
      script := map[];
      calls := [];
    }

    /** The text the script `name` is built from: the shared prelude, then its own body. */
    function Loaded(name: string): string
      reads this
    {
      source("common.lua") + source("journal." + name + ".lua")
    }

    /** getScript: loads a script once, then answers from the memo. */
    method GetScript(name: string) returns (s: string)
      modifies this
      ensures name in old(script) ==> s == old(script)[name] && script == old(script)
      ensures name !in old(script) ==> s == Loaded(name) && script == old(script)[name := s]
      ensures name in script && s == script[name] && script == old(script)[name := s]
      ensures calls == old(calls) && client == old(client)
    {
      if name in script {
        return script[name];
      }
      s := Loaded(name);
      script := script[name := s];
    }

    /** evalScript: the script is sent through the connection with its keys and arguments. */
    method Eval(s: string, keys: seq<string>, args: string)
      modifies this
      ensures calls == old(calls) + [Call(client, s, keys, args)]
      ensures script == old(script) && client == old(client)
    {
      calls := calls + [Call(client, s, keys, args)];
    }

    /** write: sends the escaped key and the flattened dependencies; anything but TRUE fails. */
    method Write(key: string, dp: map<string, Arg>, reply: Reply) returns (r: Result<(), Error>)
      modifies this
      ensures "write" in script && script == old(script)["write" := script["write"]]
      ensures calls == old(calls) + [Call(client, script["write"], [Escape(key)], encode(FlattenDp(dp)))]
      ensures "write" in old(script) ==> script == old(script)
      ensures client == old(client)
      ensures r.Success? <==> reply == True
      ensures r.Failure? ==> r.error.ClientError?
    {
      var s := GetScript("write");
      var escaped := Escape(key);
      Eval(s, [escaped], encode(FlattenDp(dp)));
      if reply != True {
        return Failure(ScriptFailure("write(" + escaped + ")"));
      }
      return Success(());
    }

    /**
     * clean: sends the flattened conditions, with `delete-entries` set when the storage is a
     * RedisStorage. A reply that is neither a list nor TRUE fails; a RedisStorage gets `[]`;
     * otherwise a list comes back deduplicated and unescaped and TRUE becomes null.
     */
    method Clean(conds: map<string, Arg>, redisStorage: bool, reply: Reply) returns (r: Result<Option<seq<string>>, Error>)
      modifies this
      ensures "clean" in script && script == old(script)["clean" := script["clean"]]
      ensures calls == old(calls) + [Call(client, script["clean"], [], encode(FlattenDp(Sent(conds, redisStorage))))]
      ensures "clean" in old(script) ==> script == old(script)
      ensures r == CleanResult(reply, redisStorage)
      ensures client == old(client)
    {
      var sent := Sent(conds, redisStorage);
      var s := GetScript("clean");
      Eval(s, [], encode(FlattenDp(sent)));
      if reply.Other? {
        return Failure(ScriptFailure("clean()"));
      }
      if redisStorage {
        return Success(Some([]));
      }
      if reply.Items? {
        return Success(Some(UnescapeAll(reply.keys)));
      }
      return Success(None);
    }
  }

  /** The conditions clean sends: `delete-entries` is added when the storage is a RedisStorage. */
  function Sent(conds: map<string, Arg>, redisStorage: bool): (r: map<string, Arg>)
    ensures redisStorage ==> DeleteEntries in r && r[DeleteEntries] == Text("1")
    ensures forall k :: k != DeleteEntries ==> (k in r <==> k in conds) && (k in r ==> r[k] == conds[k])
  {
    if redisStorage then conds[DeleteEntries := Text("1")] else conds
  }

  /** With a RedisStorage the scripts are always asked to delete the entries as well. */
  lemma RedisStorageDeletesEntries(conds: map<string, Arg>)
    ensures FlattenDp(Sent(conds, true))[DeleteEntries] == Text("1")
  {
  }
}
