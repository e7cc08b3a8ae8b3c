/**
 * The registry of driver connections, keyed by host and port; the host is compared without
 * regard to case.
 */
module Connections {
  import opened Wrappers
  import opened Strings

  /** A driver connection; the driver itself is not part of this model. */
  datatype Driver = Driver(id: nat)

  /** getKey: the lower-cased host, a colon, the port. */
  function PoolKey(host: string, port: int): string {
    Lower(host) + ":" + IntToString(port)
  }

  /** Hosts that differ only in case share a slot. */
  lemma KeyIgnoresCase(host: string, port: int)
    ensures PoolKey(Lower(host), port) == PoolKey(host, port)
  {
    LowerIdempotent(host);
  }

  /** The text after the last colon (all of it when there is none). */
  function AfterLastColon(k: string): string
    decreases |k|
  {
    if k == [] then []
    else if k[|k| - 1] == ':' then []
    else AfterLastColon(k[..|k| - 1]) + [k[|k| - 1]]
  }

  lemma {:induction false} AfterLastColonOf(x: string, y: string)
    requires ':' !in y
    ensures AfterLastColon(x + ":" + y) == y
    decreases |y|
  {
    var k := x + ":" + y;
    if y == [] {
      assert k[|k| - 1] == ':';
    } else {
      var front := y[..|y| - 1];
      assert k[..|k| - 1] == x + ":" + front;
      assert k[|k| - 1] == y[|y| - 1];
      AfterLastColonOf(x, front);
      assert y == front + [y[|y| - 1]];
    }
  }

  /** Distinct (lower-cased host, port) pairs never share a slot, even when the host holds colons. */
  lemma KeyInjective(h1: string, p1: int, h2: string, p2: int)
    requires PoolKey(h1, p1) == PoolKey(h2, p2)
    ensures Lower(h1) == Lower(h2) && p1 == p2
  {
    var a, s := Lower(h1), IntToString(p1);
    var b, t := Lower(h2), IntToString(p2);
    var k := PoolKey(h1, p1);
    AfterLastColonOf(a, s);
    AfterLastColonOf(b, t);
    assert a == k[..|a|] && b == k[..|b|];
    IntToStringInjective(p1, p2);
  }

  /** getConnection over a registry: the connection in the host and port's slot, if any. */
  function Find(connections: map<string, Driver>, host: string, port: int): Option<Driver> {
    var key := PoolKey(host, port);
    if key in connections then Some(connections[key]) else None
  }

  /**
   * After a connection is registered, it is found under its host in any case and its port;
   * every other host and port finds what it found before.
   */
  lemma AddThenFind(connections: map<string, Driver>, host: string, port: int, conn: Driver, host2: string, port2: int)
    ensures Find(connections[PoolKey(host, port) := conn], host2, port2)
            == if Lower(host2) == Lower(host) && port2 == port then Some(conn) else Find(connections, host2, port2)
  {
    if PoolKey(host2, port2) == PoolKey(host, port) {
      KeyInjective(host2, port2, host, port);
    }
  }

  class ConnectionPool {
    var connections: map<string, Driver>

    constructor ()
      ensures connections == map[]
    {
      connections := map[];
    }

    /** addConnection: a taken slot fails with ConnectionAlreadyInPoolException and changes nothing. */
    method AddConnection(host: string, port: int, conn: Driver) returns (r: Result<(), Error>)
      modifies this
      ensures PoolKey(host, port) in old(connections) ==> r == Failure(ConnectionAlreadyInPool) && connections == old(connections)
      ensures PoolKey(host, port) !in old(connections) ==> r == Success(()) && connections == old(connections)[PoolKey(host, port) := conn]
    {
      var key := PoolKey(host, port);
      if key in connections {
        return Failure(ConnectionAlreadyInPool);
      }
      connections := connections[key := conn];
      return Success(());
    }

    /** getConnection: null for a host and port never added. */
    function GetConnection(host: string, port: int): (r: Option<Driver>)
      reads this
      ensures r.Some? <==> PoolKey(host, port) in connections
      ensures r.Some? ==> r.value == connections[PoolKey(host, port)]
    {
      Find(connections, host, port)
    }
  }
}
