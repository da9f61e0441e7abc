/** The state of the websocket connection registry, as values.

    The registry maps a group name to a ConnectionInfo record holding the
    handles joined under that name (in join order) and the name itself.
    This module defines what Add and Remove do to that map, the sum of all
    group sizes, and the facts the registry relies on: no group is empty,
    every record carries its own key, and the counts follow every update.
 */
module Registry {

  /** A connection handle. The registry never looks inside a handle; it only
      compares handles for identity, as the Go code compares pointers. */
  type Handle = nat

  /** The record stored under each group name. */
  datatype ConnectionInfo = ConnectionInfo(conns: seq<Handle>, name: string)

  /** The registry's only state: group name to record. */
  type Connections = map<string, ConnectionInfo>

  /** The registry invariant: no group is kept empty, and each record's name
      is the key it is stored under. */
  ghost predicate Valid(m: Connections) {
    forall k :: k in m ==> m[k].conns != [] && m[k].name == k
  }

  /** How often handle h is registered under group name. */
  function Occurrences(m: Connections, name: string, h: Handle): nat {
    if name in m then multiset(m[name].conns)[h] else 0
  }

  /** One group's handles, each tagged with the group's name. */
  function Tagged(name: string, conns: seq<Handle>): seq<(string, Handle)> {
    seq(|conns|, i requires 0 <= i < |conns| => (name, conns[i]))
  }

  /** Tagging one more handle appends one pair. */
  lemma TaggedSnoc(name: string, conns: seq<Handle>, x: Handle)
    ensures Tagged(name, conns + [x]) == Tagged(name, conns) + [(name, x)]
  {
  }

  /** Everything the registry holds, as (group name, handle) pairs: one pair
      per registration. The groups are taken in no particular order. */
  ghost function Entries(m: Connections): multiset<(string, Handle)>
    decreases |m.Keys|
  {
    if m == map[] then multiset{}
    else
      var k :| k in m;
      assert (m - {k}).Keys == m.Keys - {k};
      multiset(Tagged(k, m[k].conns)) + Entries(m - {k})
  }

  /** The contents do not depend on the order the groups are taken in: any
      group can be split off first. */
  lemma {:induction false} EntriesRemove(m: Connections, k: string)
    requires k in m
    ensures Entries(m) == multiset(Tagged(k, m[k].conns)) + Entries(m - {k})
    decreases |m.Keys|
  {
    var j :| j in m && Entries(m) == multiset(Tagged(j, m[j].conns)) + Entries(m - {j});
    if j != k {
      var first, other := multiset(Tagged(j, m[j].conns)), multiset(Tagged(k, m[k].conns));
      var rest := m - {j} - {k};
      assert (m - {j}).Keys == m.Keys - {j};
      assert (m - {k}).Keys == m.Keys - {k};
      assert m - {k} - {j} == rest;
      calc {
        Entries(m);
        first + Entries(m - {j});
        { EntriesRemove(m - {j}, k); }
        first + (other + Entries(rest));
        other + (first + Entries(rest));
        { EntriesRemove(m - {k}, j); }
        other + Entries(m - {k});
      }
    }
  }

  /** A tagged group holds (n, x) as often as x is in it when n is its name,
      and never otherwise. */
  lemma {:induction false} TaggedCount(name: string, conns: seq<Handle>, n: string, x: Handle)
    ensures multiset(Tagged(name, conns))[(n, x)] == if n == name then multiset(conns)[x] else 0
    decreases |conns|
  {
    if conns != [] {
      var last := |conns| - 1;
      assert conns == conns[..last] + [conns[last]];
      TaggedSnoc(name, conns[..last], conns[last]);
      TaggedCount(name, conns[..last], n, x);
    }
  }

  /** The contents hold (n, x) exactly as often as x is registered under n. */
  lemma {:induction false} EntriesCount(m: Connections, n: string, x: Handle)
    ensures Entries(m)[(n, x)] == Occurrences(m, n, x)
    decreases |m.Keys|
  {
    if m != map[] {
      var k :| k in m;
      EntriesRemove(m, k);
      TaggedCount(k, m[k].conns, n, x);
      assert (m - {k}).Keys == m.Keys - {k};
      EntriesCount(m - {k}, n, x);
    }
  }

  /** The total number of registered handles. */
  ghost function Total(m: Connections): nat {
    |Entries(m)|
  }

  /** The total is the sum of the lengths of all groups: none when there is
      no group, and any one group can be counted first. */
  lemma TotalRemove(m: Connections, k: string)
    requires k in m
    ensures Total(m) == |m[k].conns| + Total(m - {k})
  {
    EntriesRemove(m, k);
  }

  /** Replacing one group's record changes the total by the difference of
      the two lengths. */
  lemma TotalUpdate(m: Connections, k: string, info: ConnectionInfo)
    ensures Total(m[k := info]) + (if k in m then |m[k].conns| else 0) == Total(m) + |info.conns|
  {
    TotalRemove(m[k := info], k);
    if k in m {
      TotalRemove(m, k);
      assert m[k := info] - {k} == m - {k};
    } else {
      assert m[k := info] - {k} == m;
    }
  }

  /** One group never holds more handles than the registry as a whole. */
  lemma GroupWithinTotal(m: Connections, name: string)
    requires name in m
    ensures |m[name].conns| <= Total(m)
  {
    TotalRemove(m, name);
  }

  /** Under the invariant every group holds at least one handle, so there are
      at least as many handles as groups, and the registry holds no handle
      exactly when it holds no group. */
  lemma {:induction false} TotalAtLeastNames(m: Connections)
    ensures Valid(m) ==> |m| <= Total(m)
    ensures Valid(m) ==> (Total(m) == 0 <==> m == map[])
    decreases |m.Keys|
  {
    if m != map[] && Valid(m) {
      var k :| k in m;
      TotalRemove(m, k);
      assert (m - {k}).Keys == m.Keys - {k};
      TotalAtLeastNames(m - {k});
    }
  }

  // ---------------------------------------------------------------------
  // Add
  // ---------------------------------------------------------------------

  /** The map after Add(name, h): h is appended to the end of name's list; a
      missing group is created with its own name. No other group changes. */
  function AddTo(m: Connections, name: string, h: Handle): (r: Connections)
    ensures r.Keys == m.Keys + {name}
    ensures name in m ==> r[name] == ConnectionInfo(m[name].conns + [h], m[name].name)
    ensures name !in m ==> r[name] == ConnectionInfo([h], name)
    ensures forall k :: k in m && k != name ==> r[k] == m[k]
    ensures Valid(m) ==> Valid(r)
  {
    var info := if name in m then m[name] else ConnectionInfo([], name);
    m[name := info.(conns := info.conns + [h])]
  }

  /** Add registers exactly one more copy of h under name and nothing else:
      it does not deduplicate, and other groups keep their contents. */
  lemma AddOccurrences(m: Connections, name: string, h: Handle)
    ensures forall k, x :: Occurrences(AddTo(m, name, h), k, x)
                           == Occurrences(m, k, x) + (if k == name && x == h then 1 else 0)
  {
    var r := AddTo(m, name, h);
    var before := if name in m then m[name].conns else [];
    assert r[name].conns == before + [h];
    assert multiset(r[name].conns) == multiset(before) + multiset{h};
  }

  /** Add raises the connection count by one and the group's size by one; the
      number of groups rises by one exactly when the group was absent. */
  lemma AddCounts(m: Connections, name: string, h: Handle)
    ensures Total(AddTo(m, name, h)) == Total(m) + 1
    ensures |AddTo(m, name, h)[name].conns| == (if name in m then |m[name].conns| else 0) + 1
    ensures |AddTo(m, name, h)| == |m| + (if name in m then 0 else 1)
  {
    var info := if name in m then m[name] else ConnectionInfo([], name);
    TotalUpdate(m, name, info.(conns := info.conns + [h]));
    if name !in m {
      assert AddTo(m, name, h).Keys == m.Keys + {name};
    } else {
      assert AddTo(m, name, h).Keys == m.Keys;
    }
  }

  // ---------------------------------------------------------------------
  // Remove
  // ---------------------------------------------------------------------

  /** The list after deleting the first occurrence of h, if any. */
  function RemoveFirst(s: seq<Handle>, h: Handle): seq<Handle> {
    if s == [] then []
    else if s[0] == h then s[1..]
    else [s[0]] + RemoveFirst(s[1..], h)
  }

  /** Exactly one copy of h goes, when there is one. */
  lemma {:induction false} RemoveFirstCounts(s: seq<Handle>, h: Handle)
    ensures |RemoveFirst(s, h)| == if h in s then |s| - 1 else |s|
    ensures multiset(RemoveFirst(s, h)) == multiset(s) - multiset{h}
  {
    if s != [] {
      assert s == [s[0]] + s[1..];
      if s[0] != h {
        RemoveFirstCounts(s[1..], h);
      }
    }
  }

  /** A list without h is left as it is. */
  lemma {:induction false} RemoveFirstAbsent(s: seq<Handle>, h: Handle)
    requires h !in s
    ensures RemoveFirst(s, h) == s
  {
    if s != [] {
      RemoveFirstAbsent(s[1..], h);
    }
  }

  /** When i is the first index holding h, exactly that element goes, and
      the handles before and after it keep their relative order. */
  lemma {:induction false} RemoveFirstAt(s: seq<Handle>, h: Handle, i: nat)
    requires i < |s| && s[i] == h && h !in s[..i]
    ensures RemoveFirst(s, h) == s[..i] + s[i + 1..]
  {
    if i > 0 {
      var t := s[1..];
      assert s[0] != h by { assert s[0] == s[..i][0]; }
      assert t[..i - 1] == s[..i][1..];
      RemoveFirstAt(t, h, i - 1);
      assert RemoveFirst(s, h) == [s[0]] + RemoveFirst(t, h);
      assert s[..i] == [s[0]] + t[..i - 1];
      assert s[i + 1..] == t[i..];
    }
  }

  /** The map after Remove(name, h). An absent group is left alone. Otherwise
      the first occurrence of h is deleted from the group's list; the group is
      dropped if its list is then empty and otherwise keeps its record with
      the shorter list. No other group changes. */
  function RemoveFrom(m: Connections, name: string, h: Handle): (r: Connections)
    ensures name !in m ==> r == m
    ensures r.Keys <= m.Keys
    ensures forall k :: k in m && k != name ==> k in r && r[k] == m[k]
    ensures name in m ==> (name in r <==> RemoveFirst(m[name].conns, h) != [])
    ensures name in r ==> r[name] == ConnectionInfo(RemoveFirst(m[name].conns, h), m[name].name)
    ensures Valid(m) ==> Valid(r)
  {
    if name !in m then m
    else
      var rest := RemoveFirst(m[name].conns, h);
      if |rest| == 0 then m - {name} else m[name := m[name].(conns := rest)]
  }

  /** Under the invariant, removing a handle that is not in the group, or from
      a group that does not exist, leaves the whole map unchanged. */
  lemma RemoveAbsentIsNoOp(m: Connections, name: string, h: Handle)
    requires Valid(m)
    requires name !in m || h !in m[name].conns
    ensures RemoveFrom(m, name, h) == m
  {
    if name in m {
      RemoveFirstAbsent(m[name].conns, h);
      assert m[name := m[name].(conns := m[name].conns)] == m;
    }
  }

  /** Remove forgets one copy of h under name, if there is one: the count of
      one (group, handle) pair. */
  lemma RemoveOccurrence(m: Connections, name: string, h: Handle, k: string, x: Handle)
    ensures Occurrences(RemoveFrom(m, name, h), k, x)
            == Occurrences(m, k, x) - (if k == name && x == h && Occurrences(m, k, x) > 0 then 1 else 0)
  {
    if k == name && name in m {
      var s := m[name].conns;
      var rest := RemoveFirst(s, h);
      var before: multiset<Handle> := multiset(s);
      var after: multiset<Handle> := multiset(rest);
      RemoveFirstCounts(s, h);
      assert after[x] == if x == h && before[x] > 0 then before[x] - 1 else before[x];
      if rest == [] {
        assert name !in RemoveFrom(m, name, h);
      } else {
        assert RemoveFrom(m, name, h)[name].conns == rest;
      }
    }
  }

  /** Remove forgets exactly one copy of h under name, if there is one, and
      nothing else. */
  lemma RemoveOccurrences(m: Connections, name: string, h: Handle)
    ensures forall k, x :: Occurrences(RemoveFrom(m, name, h), k, x)
                           == Occurrences(m, k, x) - (if k == name && x == h && Occurrences(m, k, x) > 0 then 1 else 0)
  {
    forall k, x
      ensures Occurrences(RemoveFrom(m, name, h), k, x)
              == Occurrences(m, k, x) - (if k == name && x == h && Occurrences(m, k, x) > 0 then 1 else 0)
    {
      RemoveOccurrence(m, name, h, k, x);
    }
  }

  /** Remove lowers the connection count by one exactly when the handle was
      registered under that name. */
  lemma RemoveTotal(m: Connections, name: string, h: Handle)
    ensures Total(RemoveFrom(m, name, h)) == Total(m) - (if name in m && h in m[name].conns then 1 else 0)
  {
    if name in m {
      var rest := RemoveFirst(m[name].conns, h);
      RemoveFirstCounts(m[name].conns, h);
      TotalRemove(m, name);
      if |rest| == 0 {
        assert RemoveFrom(m, name, h) == m - {name};
      } else {
        TotalUpdate(m, name, m[name].(conns := rest));
      }
    }
  }

  /** Under the invariant, the number of groups drops by one exactly when the
      removed handle was the group's last one, and the group is then gone. */
  lemma RemoveNameCount(m: Connections, name: string, h: Handle)
    requires Valid(m)
    ensures name in m && m[name].conns == [h] ==> name !in RemoveFrom(m, name, h)
    ensures |RemoveFrom(m, name, h)| == |m| - (if name in m && m[name].conns == [h] then 1 else 0)
  {
    var r := RemoveFrom(m, name, h);
    if name in m {
      var s := m[name].conns;
      if s == [h] {
        assert RemoveFirst(s, h) == [];
        assert r.Keys == m.Keys - {name};
      } else {
        RemoveFirstCounts(s, h);
        assert r.Keys == m.Keys;
      }
    }
  }

  // ---------------------------------------------------------------------
  // Sequences of registrations
  // ---------------------------------------------------------------------

  /** One registry call: a connection joining or leaving a group. */
  datatype Op = Join(name: string, handle: Handle) | Leave(name: string, handle: Handle)

  /** The map after one call. */
  function Apply(m: Connections, op: Op): Connections {
    match op
    case Join(n, h) => AddTo(m, n, h)
    case Leave(n, h) => RemoveFrom(m, n, h)
  }

  /** The map after a sequence of calls, made one at a time in order. */
  function Replay(m: Connections, ops: seq<Op>): Connections
    decreases |ops|
  {
    if ops == [] then m else Replay(Apply(m, ops[0]), ops[1..])
  }

  /** Handles added minus handles removed, where a removal counts only if the
      handle was registered under that name when it was made. */
  function NetChange(m: Connections, ops: seq<Op>): int
    decreases |ops|
  {
    if ops == [] then 0
    else
      var delta := match ops[0]
        case Join(_, _) => 1
        case Leave(n, h) => if n in m && h in m[n].conns then -1 else 0;
      delta + NetChange(Apply(m, ops[0]), ops[1..])
  }

  /** Over any sequence of calls the connection count moves by exactly the
      handles added minus the handles successfully removed, and the invariant
      holds throughout. */
  lemma {:induction false} ReplayCounts(m: Connections, ops: seq<Op>)
    ensures Total(Replay(m, ops)) == Total(m) + NetChange(m, ops)
    ensures Valid(m) ==> Valid(Replay(m, ops))
    decreases |ops|
  {
    if ops != [] {
      match ops[0] {
        case Join(n, h) => AddCounts(m, n, h);
        case Leave(n, h) => RemoveTotal(m, n, h);
      }
      ReplayCounts(Apply(m, ops[0]), ops[1..]);
    }
  }

  /** The calls that join each of hs to group name, in order. */
  function Joins(name: string, hs: seq<Handle>): seq<Op> {
    if hs == [] then [] else [Join(name, hs[0])] + Joins(name, hs[1..])
  }

  /** Joining hs to one group one call at a time loses no update: the group
      ends with its old list followed by all of hs, in call order. */
  lemma {:induction false} JoinsAppend(m: Connections, name: string, hs: seq<Handle>)
    requires hs != [] || name in m
    ensures name in Replay(m, Joins(name, hs))
    ensures Replay(m, Joins(name, hs))[name].conns == (if name in m then m[name].conns else []) + hs
    decreases |hs|
  {
    if hs != [] {
      var ops := Joins(name, hs);
      var m' := AddTo(m, name, hs[0]);
      assert ops[0] == Join(name, hs[0]) && ops[1..] == Joins(name, hs[1..]);
      assert Replay(m, ops) == Replay(m', Joins(name, hs[1..]));
      JoinsAppend(m', name, hs[1..]);
      var before := if name in m then m[name].conns else [];
      assert m'[name].conns == before + [hs[0]];
      assert before + hs == before + [hs[0]] + hs[1..];
    }
  }

  // ---------------------------------------------------------------------
  // Broadcast snapshots
  // ---------------------------------------------------------------------

  /** The two parallel snapshot lists read as one list of (name, handle) pairs. */
  function Pairs(names: seq<string>, conns: seq<Handle>): seq<(string, Handle)>
    requires |names| == |conns|
  {
    seq(|names|, i requires 0 <= i < |names| => (names[i], conns[i]))
  }

  /** The name list a group contributes to a snapshot: its name, once per handle. */
  function Repeat(name: string, n: nat): seq<string> {
    seq(n, _ => name)
  }

  /** One more step of copying a list onto the end of another. */
  lemma CopyStep<T>(before: seq<T>, s: seq<T>, j: nat)
    requires j < |s|
    ensures before + s[..j] + [s[j]] == before + s[..j + 1]
  {
  }

  /** One more copy of a group's name onto the end of the name list. */
  lemma RepeatStep(before: seq<string>, name: string, j: nat)
    ensures before + Repeat(name, j) + [name] == before + Repeat(name, j + 1)
  {
  }

  /** Appending one whole group to both lists appends that group, tagged. */
  lemma PairsAppendGroup(names: seq<string>, conns: seq<Handle>, name: string, group: seq<Handle>)
    requires |names| == |conns|
    ensures Pairs(names + Repeat(name, |group|), conns + group) == Pairs(names, conns) + Tagged(name, group)
  {
  }

  /** Two parallel lists that hold exactly the registry's contents as pairs
      have one entry per registered handle, and each handle at index i is
      registered under the name at index i. */
  lemma SnapshotContents(m: Connections, names: seq<string>, conns: seq<Handle>)
    requires |names| == |conns|
    requires multiset(Pairs(names, conns)) == Entries(m)
    ensures |conns| == Total(m)
    ensures forall n, x :: multiset(Pairs(names, conns))[(n, x)] == Occurrences(m, n, x)
    ensures forall i :: 0 <= i < |conns| ==> names[i] in m && conns[i] in m[names[i]].conns
  {
    forall n, x ensures multiset(Pairs(names, conns))[(n, x)] == Occurrences(m, n, x) {
      EntriesCount(m, n, x);
    }
    forall i | 0 <= i < |conns| ensures names[i] in m && conns[i] in m[names[i]].conns {
      assert Pairs(names, conns)[i] == (names[i], conns[i]);
      EntriesCount(m, names[i], conns[i]);
    }
  }

  /** When every name in a snapshot is g, counting (g, x) pairs counts x. */
  lemma {:induction false} SameNameCount(names: seq<string>, conns: seq<Handle>, g: string, x: Handle)
    requires |names| == |conns|
    requires forall i :: 0 <= i < |names| ==> names[i] == g
    ensures multiset(Pairs(names, conns))[(g, x)] == multiset(conns)[x]
    decreases |conns|
  {
    if |conns| > 0 {
      var n := |conns| - 1;
      SameNameCount(names[..n], conns[..n], g, x);
      assert Pairs(names, conns) == Pairs(names[..n], conns[..n]) + [(g, conns[n])];
      assert conns == conns[..n] + [conns[n]];
    }
  }

  /** With a single group registered, a snapshot of the whole registry
      holds exactly that group's handles, each as often as it is registered. */
  lemma SingleGroupSnapshot(m: Connections, names: seq<string>, conns: seq<Handle>, g: string)
    requires m.Keys == {g}
    requires |names| == |conns|
    requires multiset(Pairs(names, conns)) == Entries(m)
    ensures multiset(conns) == multiset(m[g].conns)
  {
    SnapshotContents(m, names, conns);
    forall x ensures multiset(conns)[x] == multiset(m[g].conns)[x] {
      SameNameCount(names, conns, g, x);
    }
  }
}
