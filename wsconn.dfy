/** The websocket connection manager: a registry of connection handles
    grouped under names, with the snapshot half of its two broadcasts.

    Each method is one atomic call; the locking that makes the calls atomic,
    and the concurrent sends that follow a snapshot, are outside this model.
 */
module WsConn {
  import opened Registry

  class ConnectionManager {
    /** Group name to the record of the handles joined under it. */
    var connections: Connections

    ghost predicate Valid()
      reads this
    {
      Registry.Valid(connections)
    }

    /** A manager with no groups. */
    constructor ()
      ensures connections == map[]
      ensures Valid()
    {
      connections := map[];
    }

    /** Registers h under name, creating the group if it is absent. */
    method Add(name: string, h: Handle)
      modifies this
      ensures connections == AddTo(old(connections), name, h)
      ensures old(Valid()) ==> Valid()
      ensures Total(connections) == Total(old(connections)) + 1
      ensures GetConnectionsByName(name) == old(GetConnectionsByName(name)) + 1
      ensures GetNameCount() == old(GetNameCount()) + (if old(HasName(name)) then 0 else 1)
    {
      AddCounts(connections, name, h);
      var info: ConnectionInfo;
      if name in connections {
        info := connections[name];
      } else {
        info := ConnectionInfo([], name);
      }
      info := info.(conns := info.conns + [h]);
      connections := connections[name := info];
    }

    /** Unregisters the first occurrence of h under name, if there is one,
        and drops the group once it has no handle left. */
    method Remove(name: string, h: Handle)
      modifies this
      ensures connections == RemoveFrom(old(connections), name, h)
      ensures old(Valid()) ==> Valid()
      ensures Total(connections)
              == Total(old(connections)) - (if old(name in connections && h in connections[name].conns) then 1 else 0)
    {
      if name !in connections {
        RemoveTotal(connections, name, h);
        return;
      }
      var info := connections[name];
      var i := 0;
      while i < |info.conns|
        invariant 0 <= i <= |info.conns|
        invariant info == connections[name]
        invariant h !in info.conns[..i]
      {
        if info.conns[i] == h {
          RemoveFirstAt(info.conns, h, i);
          info := info.(conns := info.conns[..i] + info.conns[i + 1..]);
          break;
        }
        i := i + 1;
      }
      ghost var before := connections;
      if h !in before[name].conns {
        assert info.conns[..i] == info.conns;
        RemoveFirstAbsent(info.conns, h);
      }
      assert info == before[name].(conns := RemoveFirst(before[name].conns, h));
      RemoveTotal(before, name, h);
      if |info.conns| == 0 {
        connections := connections - {name};
      } else {
        connections := connections[name := info];
      }
    }

    /** The targets BroadcastAll sends to: every registered handle, each
        paired (at the same index) with the name of the group it came from.
        The groups are visited in no particular order. */
    method BroadcastAll() returns (allConns: seq<Handle>, allNames: seq<string>)
      requires Valid()
      ensures |allConns| == |allNames| == Total(connections)
      ensures multiset(Pairs(allNames, allConns)) == Entries(connections)
      ensures forall n, x :: multiset(Pairs(allNames, allConns))[(n, x)] == Occurrences(connections, n, x)
      ensures forall i :: 0 <= i < |allConns| ==>
                allNames[i] in connections && allConns[i] in connections[allNames[i]].conns
    {
      allConns, allNames := [], [];
      var left := connections;
      while left != map[]
        invariant |allConns| == |allNames|
        invariant Registry.Valid(left)
        invariant multiset(Pairs(allNames, allConns)) + Entries(left) == Entries(connections)
        decreases |left.Keys|
      {
        var key :| key in left;
        var info := left[key];
        assert info.name == key;
        ghost var namesBefore, connsBefore := allNames, allConns;
        var j := 0;
        while j < |info.conns|
          invariant 0 <= j <= |info.conns|
          invariant allNames == namesBefore + Repeat(info.name, j)
          invariant allConns == connsBefore + info.conns[..j]
        {
          CopyStep(connsBefore, info.conns, j);
          RepeatStep(namesBefore, info.name, j);
          allConns := allConns + [info.conns[j]];
          allNames := allNames + [info.name];
          j := j + 1;
        }
        assert info.conns[..j] == info.conns;
        PairsAppendGroup(namesBefore, connsBefore, key, info.conns);
        EntriesRemove(left, key);
        assert (left - {key}).Keys == left.Keys - {key};
        left := left - {key};
      }
      SnapshotContents(connections, allNames, allConns);
    }

    /** The targets BroadcastToName sends to: a copy of the group's list, in
        its order, or nothing when the group is absent. */
    method BroadcastToName(name: string) returns (targets: seq<Handle>)
      ensures name !in connections ==> targets == []
      ensures name in connections ==> targets == connections[name].conns
      ensures |targets| == GetConnectionsByName(name)
      ensures forall x :: multiset(targets)[x] == Occurrences(connections, name, x)
    {
      if name !in connections {
        return [];
      }
      targets := connections[name].conns;
    }

    /** The total number of registered handles, summed group by group in no
        particular order. */
    method GetConnectionCount() returns (count: nat)
      ensures count == Total(connections)
    {
      count := 0;
      var left := connections;
      while left != map[]
        invariant count + Total(left) == Total(connections)
        decreases |left.Keys|
      {
        var key :| key in left;
        TotalRemove(left, key);
        count := count + |left[key].conns|;
        assert (left - {key}).Keys == left.Keys - {key};
        left := left - {key};
      }
    }

    /** The number of groups; under the invariant never more than the number
        of handles. */
    function GetNameCount(): (r: nat)
      reads this
      ensures r == |connections.Keys|
      ensures Valid() ==> r <= Total(connections)
    {
      TotalAtLeastNames(connections);
      |connections|
    }

    /** The size of one group, 0 when it is absent; never more than the
        number of handles. */
    function GetConnectionsByName(name: string): (r: nat)
      reads this
      ensures name !in connections ==> r == 0
      ensures name in connections ==> r == |connections[name].conns|
      ensures r <= Total(connections)
    {
      if name in connections then GroupWithinTotal(connections, name); |connections[name].conns| else 0
    }

    /** Whether the group exists; under the invariant, exactly when it has a
        member. */
    function HasName(name: string): (r: bool)
      reads this
      ensures r <==> name in connections
      ensures Valid() ==> (r <==> GetConnectionsByName(name) > 0)
    {
      name in connections
    }
  }

  /** Two clients join the application's single group, "counter", as each
      websocket handler does on connect. */
  method JoinCounter(h1: Handle, h2: Handle) returns (cm: ConnectionManager)
    ensures fresh(cm)
    ensures cm.Valid()
    ensures cm.connections == map["counter" := ConnectionInfo([h1, h2], "counter")]
  {
    cm := new ConnectionManager();
    cm.Add("counter", h1);
    cm.Add("counter", h2);
    assert cm.connections["counter"].conns == [h1] + [h2] == [h1, h2];
  }

  /** The first of the two clients leaves "counter", as its handler does
      when the socket closes. */
  method LeaveCounter(cm: ConnectionManager, h1: Handle, h2: Handle)
    requires cm.connections == map["counter" := ConnectionInfo([h1, h2], "counter")]
    modifies cm
    ensures cm.Valid()
    ensures cm.connections == map["counter" := ConnectionInfo([h2], "counter")]
  {
    cm.Remove("counter", h1);
    assert cm.connections["counter"].conns == [h2];
  }

  /** The application's counter broadcast, which the ticker sends every
      second whether or not a client is connected: with "counter" the only
      group there can be, BroadcastAll reaches exactly that group's clients,
      each once per registration, and nobody when the group is absent. */
  method BroadcastCounter(cm: ConnectionManager) returns (targets: seq<Handle>)
    requires cm.Valid()
    requires cm.connections.Keys <= {"counter"}
    ensures multiset(targets)
            == if "counter" in cm.connections then multiset(cm.connections["counter"].conns) else multiset{}
  {
    var names;
    targets, names := cm.BroadcastAll();
    if "counter" in cm.connections {
      SingleGroupSnapshot(cm.connections, names, targets, "counter");
    } else {
      assert cm.connections == map[];
    }
  }

  /** The application's use of the registry: every client joins "counter"
      and leaves it when its socket closes, and each counter update is sent
      with BroadcastAll. With two clients joined, the broadcast reaches both,
      once each; after the first leaves, it reaches only the second. */
  method CounterScenario(h1: Handle, h2: Handle) returns (first: seq<Handle>, second: seq<Handle>)
    ensures multiset(first) == multiset{h1, h2}
    ensures second == [h2]
  {
    var cm := JoinCounter(h1, h2);
    first := BroadcastCounter(cm);
    LeaveCounter(cm, h1, h2);
    second := BroadcastCounter(cm);
    assert second == [second[0]];
  }
}
