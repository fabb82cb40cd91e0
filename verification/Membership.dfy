/**
  The member list as the program keeps it: one shared record per member, reachable from a map by
  name and from a list in random order, both updated in place by the message handlers.
 */
module Membership {
  import opened Bytes
  import opened Gossip
  import opened Shuffling

  class NodeState {
    const name: Name
    const addr: Blob
    const port: nat
    var meta: Blob
    var vsn: Blob
    var status: Status
    var inc: Uint32

    constructor (a: AliveMsg)
      ensures name == a.node && R() == Unknown(a)
    {
      name, addr, port, meta := a.node, a.addr, a.port, a.meta;
      vsn, status, inc := [0, 0, 0, 0, 0, 0], Dead, 0;
    }

    function R(): Rec
      reads this
    {
      Rec(addr, port, meta, vsn, status, inc)
    }

    method Update(a: AliveMsg)
      requires VersionsOk(a)
      modifies this
      ensures R() == Rec(addr, port, a.meta, if |a.vsn| > 0 then a.vsn[..6] else old(vsn), Alive, a.inc)
    {
      if |a.vsn| > 0 { vsn := a.vsn[..6]; }
      inc := a.inc;
      meta := a.meta;
      if status != Alive { status := Alive; }
    }

    method Mark(acc: Accusation, status': Status)
      modifies this
      ensures R() == old(R()).(status := status', inc := acc.inc)
    {
      inc := acc.inc;
      status := status';
    }
  }

  /** List and map hold the same records, each once and under its own name. */
  ghost predicate Consistent(nodes: multiset<NodeState>, nodeMap: map<Name, NodeState>) {
    && (forall x :: x in nodes ==> nodes[x] == 1 && x.name in nodeMap && nodeMap[x.name] == x)
    && (forall n :: n in nodeMap ==> nodeMap[n] in nodes && nodeMap[n].name == n)
  }

  ghost predicate Named(nodeMap: map<Name, NodeState>) { forall n :: n in nodeMap ==> nodeMap[n].name == n }

  /** Hence names in the list are unique. */
  lemma NamesUnique(nodes: seq<NodeState>, nodeMap: map<Name, NodeState>, i: nat, j: nat)
    requires Consistent(multiset(nodes), nodeMap) && i < j < |nodes|
    ensures nodes[i].name != nodes[j].name
  {
    assert nodes[i] == nodes[j] ==> multiset(nodes)[nodes[i]] >= 2 by {
      assert nodes == nodes[..i] + [nodes[i]] + nodes[i + 1..j] + [nodes[j]] + nodes[j + 1..];
    }
    assert nodes[i] in multiset(nodes) && nodes[j] in multiset(nodes);
  }

  function Swapped(s: seq<NodeState>, i: nat, j: nat): (r: seq<NodeState>)
    requires i < |s| && j < |s|
    ensures multiset(r) == multiset(s)
    ensures |r| == |s| && r[i] == s[j] && r[j] == s[i] && forall k :: 0 <= k < |s| && k != i && k != j ==> r[k] == s[k]
  {
    Exchanged(s, i, j)
  }

  ghost function Records(nodeMap: map<Name, NodeState>): map<Name, Rec>
    reads nodeMap.Values
  {
    map n | n in nodeMap :: nodeMap[n].R()
  }

  ghost function PushMsgs(me: Name, remote: seq<(Name, Rec)>): seq<Msg> {
    seq(|remote|, i requires 0 <= i < |remote| => PushMsg(me, remote[i].0, remote[i].1))
  }

  class Memberlist {
    const me: Name
    var nodes: seq<NodeState>
    var nodeMap: map<Name, NodeState>
    var counter: Uint32
    var leave: bool
    var sent: seq<Msg>

    ghost predicate Valid()
      reads this
    {
      Consistent(multiset(nodes), nodeMap)
    }

    ghost function V(): View
      reads this, nodeMap.Values
    {
      View(Records(nodeMap), counter, leave, sent)
    }

    constructor (name: Name)
      ensures Valid() && me == name && V() == View(map[], 0, false, [])
    {
      me, nodes, nodeMap, counter, leave, sent := name, [], map[], 0, false, [];
    }

    /** nextIncarnation: a 32-bit counter that wraps. */
    method NextIncarnation() returns (inc: Uint32)
      modifies this`counter
      ensures inc == counter == Tried(old(counter), 1) == (old(counter) + 1) % 0x1_0000_0000
    {
      counter := (counter + 1) % (MAX_U32 + 1);
      inc := counter;
    }

    /** The refutation loop. */
    method RefutingIncarnation(accused: Uint32) returns (inc: Uint32)
      requires accused < MAX_U32
      modifies this`counter
      ensures inc == counter == Refuted(old(counter), accused) > accused
    {
      inc := NextIncarnation();
      while accused >= inc
        invariant inc == counter
        invariant inc <= accused ==> inc == Tried(old(counter), 1) || Tried(old(counter), 1) <= accused
        invariant inc > accused ==> inc == Refuted(old(counter), accused)
        decreases accused + 1 - inc
      {
        inc := NextIncarnation();
      }
    }

    /** st is the record of a known member. */
    ghost predicate Knows(st: NodeState)
      reads this`nodeMap
    {
      st.name in nodeMap && nodeMap[st.name] == st
    }

    method RefuteAccusation(st: NodeState, accused: Uint32)
      requires Named(nodeMap) && Knows(st) && st.name == me && accused < MAX_U32
      modifies this`counter, this`sent, st`inc
      ensures V() == Refute(me, old(V()), accused)
    {
      var inc := RefutingIncarnation(accused);
      sent := sent + [AliveM(AliveMsg(st.name, inc, st.addr, st.port, st.meta, st.vsn))];
      st.inc := inc;
      assert Records(nodeMap) == old(Records(nodeMap))[st.name := st.R()];
    }

    method AcceptAlive(st: NodeState, a: AliveMsg)
      requires Named(nodeMap) && Knows(st) && st.name == a.node && VersionsOk(a)
      modifies this`sent, st
      ensures V() == Accept(old(V()), a)
    {
      sent := sent + [AliveM(a)];
      st.Update(a);
      assert Records(nodeMap) == old(Records(nodeMap))[st.name := st.R()];
    }

    method MarkNode(st: NodeState, acc: Accusation, status: Status, m: Msg)
      requires Named(nodeMap) && Knows(st) && st.name == acc.node
      modifies this`sent, st
      ensures V() == Mark(old(V()), acc, status, m)
    {
      sent := sent + [m];
      st.Mark(acc, status);
      assert Records(nodeMap) == old(Records(nodeMap))[st.name := st.R()];
    }

    /** A new member starts out dead and goes to a random place in the list. */
    method AddNode(a: AliveMsg, offset: nat) returns (st: NodeState)
      requires Valid() && a.node !in nodeMap && offset <= |nodes|
      modifies this`nodes, this`nodeMap
      ensures Valid() && fresh(st) && st.name == a.node && nodeMap == old(nodeMap)[a.node := st]
      ensures V() == old(V()).(members := old(V()).members[a.node := Unknown(a)])
      ensures nodes == Swapped(old(nodes) + [st], offset, |old(nodes)|)
    {
      st := new NodeState(a);
      AddedConsistent(nodes, nodeMap, st);
      Register(st, offset);
    }

    method Register(st: NodeState, offset: nat)
      requires offset <= |nodes|
      modifies this`nodes, this`nodeMap
      ensures nodeMap == old(nodeMap)[st.name := st] && multiset(nodes) == multiset(old(nodes) + [st])
      ensures nodes == Swapped(old(nodes) + [st], offset, |old(nodes)|)
      ensures V() == old(V()).(members := old(V()).members[st.name := st.R()])
    {
      nodeMap := nodeMap[st.name := st];
      var n := |nodes|;
      nodes := nodes + [st];
      nodes := Swapped(nodes, offset, n);
      assert Records(nodeMap) == old(Records(nodeMap))[st.name := st.R()];
    }

    /** Records of members known before are still theirs; other records are new. */
    twostate predicate KeepsRecords()
      reads this
    {
      forall n :: n in nodeMap ==> (n in old(nodeMap) && nodeMap[n] == old(nodeMap)[n]) || fresh(nodeMap[n])
    }

    /** aliveNode; rnd is the random number that places a new member. */
    method AliveNode(a: AliveMsg, bootstrap: bool, rnd: nat)
      requires Valid()
      requires if bootstrap then Accepts(me, V(), a, true) ==> VersionsOk(a) else Answerable(me, V(), AliveM(a))
      modifies this, nodeMap.Values
      ensures Valid() && KeepsRecords()
      ensures V() == OnAlive(me, old(V()), a, bootstrap)
    {
      if leave && a.node == me { return; }
      var st := Lookup(a, rnd);
      if st.addr != a.addr || st.port != a.port { return; }
      var isLocalNode := st.name == me;
      if a.inc <= st.inc && !isLocalNode { return; }
      if a.inc < st.inc && isLocalNode { return; }
      if !bootstrap && isLocalNode {
        if a.inc == st.inc && a.meta == st.meta && a.vsn == st.vsn { return; }
        RefuteAccusation(st, a.inc);
      } else {
        AcceptAlive(st, a);
      }
    }

    /** The record of the member that the message is about, made if it was unknown. */
    method Lookup(a: AliveMsg, rnd: nat) returns (st: NodeState)
      requires Valid()
      modifies this`nodes, this`nodeMap
      ensures Valid() && KeepsRecords() && Knows(st) && st.name == a.node
      ensures st in old(nodeMap.Values) || fresh(st)
      ensures V() == old(V()).(members := old(V()).members[a.node := Entry(old(V()), a)])
    {
      if a.node in nodeMap {
        st := nodeMap[a.node];
        assert V().members == V().members[a.node := Entry(V(), a)];
      } else {
        st := AddNode(a, if |nodes| == 0 then 0 else rnd % |nodes|);
      }
    }

    method SuspectNode(s: Accusation)
      requires Valid() && Answerable(me, V(), SuspectM(s))
      modifies this`counter, this`sent, nodeMap.Values
      ensures Valid() && V() == On(me, old(V()), SuspectM(s))
    {
      if s.node !in nodeMap { return; }
      var st := nodeMap[s.node];
      if s.inc < st.inc { return; }
      if st.status != Alive { return; }
      if st.name == me {
        RefuteAccusation(st, s.inc);
        return;
      }
      MarkNode(st, s, Suspect, SuspectM(s));
    }

    method DeadNode(d: Accusation)
      requires Valid() && Answerable(me, V(), DeadM(d))
      modifies this`counter, this`sent, nodeMap.Values
      ensures Valid() && V() == On(me, old(V()), DeadM(d))
    {
      if d.node !in nodeMap { return; }
      var st := nodeMap[d.node];
      if d.inc < st.inc { return; }
      if st.status == Dead { return; }
      if st.name == me && !leave {
        RefuteAccusation(st, d.inc);
        return;
      }
      MarkNode(st, d, Dead, DeadM(d));
    }

    /** setAlive, and UpdateNode for a member that is already known: take an incarnation and
        announce it. */
    method SetAlive(addr: Blob, port: nat, meta: Blob, vsn: Blob, rnd: nat)
      requires Valid() && |vsn| == 6
      modifies this, nodeMap.Values
      ensures Valid()
      ensures var inc := Tried(old(counter), 1);
              V() == OnAlive(me, old(V()).(counter := inc), AliveMsg(me, inc, addr, port, meta, vsn), true)
    {
      var inc := NextIncarnation();
      AliveNode(AliveMsg(me, inc, addr, port, meta, vsn), true, rnd);
    }

    /** The member leaves by declaring itself dead. */
    method Leave()
      requires Valid()
      modifies this, nodeMap.Values
      ensures Valid()
      ensures var v := old(V()).(leave := true);
              V() == if old(leave) || me !in v.members then v
                     else On(me, v, DeadM(Accusation(me, v.members[me].inc, [])))
    {
      hide On;
      if !leave {
        leave := true;
        if me in nodeMap { DeadNode(Accusation(me, nodeMap[me].inc, [])); }
      }
    }

    /** mergeState: a remote member's table, entry by entry. */
    method MergeState(remote: seq<(Name, Rec)>, rnd: seq<nat>)
      requires Valid() && |rnd| == |remote| && Mergeable(me, V(), PushMsgs(me, remote))
      modifies this, nodeMap.Values
      ensures Valid() && V() == Merge(me, old(V()), PushMsgs(me, remote))
    {
      ghost var ms := PushMsgs(me, remote);
      assert ms[0..] == ms;
      for i := 0 to |remote|
        invariant Valid() && KeepsRecords() && Mergeable(me, V(), ms[i..])
        invariant Merge(me, V(), ms[i..]) == Merge(me, old(V()), ms)
      {
        assert ms[i..][0] == ms[i] && ms[i..][1..] == ms[i + 1..];
        MergeOne(remote[i].0, remote[i].1, rnd[i]);
      }
    }

    method MergeOne(node: Name, r: Rec, rnd: nat)
      requires Valid() && Answerable(me, V(), PushMsg(me, node, r))
      modifies this, nodeMap.Values
      ensures Valid() && KeepsRecords() && V() == On(me, old(V()), PushMsg(me, node, r))
    {
      if r.status == Alive {
        AliveNode(AliveMsg(node, r.inc, r.addr, r.port, r.meta, r.vsn), false, rnd);
      } else {
        SuspectNode(Accusation(node, r.inc, me));
      }
    }

    /** resetNodes: reap the dead members and shuffle the others. */
    method ResetNodes(rnd: seq<nat>)
      requires Valid() && |rnd| >= |nodes|
      modifies this`nodes, this`nodeMap
      ensures Valid() && V() == old(V()).(members := Reaped(old(V()).members))
    {
      var ns, deadIdx := MoveDeadNodes(nodes);
      ReapedConsistent(ns, nodeMap, deadIdx);
      Deregister(ns, deadIdx);
      var live := ShuffleNodes(ns[..deadIdx], rnd);
      SetNodes(live);
    }

    method SetNodes(ns: seq<NodeState>)
      modifies this`nodes
      ensures nodes == ns && V() == old(V())
    {
      nodes := ns;
      assert Records(nodeMap) == old(Records(nodeMap));
    }

    method Deregister(ns: seq<NodeState>, deadIdx: nat)
      requires deadIdx <= |ns| && forall n :: n in nodeMap ==> (n in Names(ns[deadIdx..]) <==>
                 nodeMap[n].status == Dead)
      modifies this`nodeMap
      ensures nodeMap == old(nodeMap) - Names(ns[deadIdx..])
      ensures V() == old(V()).(members := Reaped(old(V()).members))
    {
      for i := deadIdx to |ns|
        invariant nodeMap == old(nodeMap) - Names(ns[deadIdx..i])
      {
        assert ns[deadIdx..i + 1] == ns[deadIdx..i] + [ns[i]];
        assert Names(ns[deadIdx..i + 1]) == Names(ns[deadIdx..i]) + {ns[i].name};
        nodeMap := nodeMap - {ns[i].name};
      }
      assert ns[deadIdx..|ns|] == ns[deadIdx..];
    }
  }

  lemma AddedConsistent(nodes: seq<NodeState>, nodeMap: map<Name, NodeState>, st: NodeState)
    requires Consistent(multiset(nodes), nodeMap) && st.name !in nodeMap
    ensures Consistent(multiset(nodes + [st]), nodeMap[st.name := st])
  {
    assert multiset(nodes + [st]) == multiset(nodes) + multiset{st};
    assert st !in multiset(nodes);
  }

  // ---------- reaping ----------

  /** Dead members to the end, the others to the front. */
  method MoveDeadNodes(nodes: seq<NodeState>) returns (r: seq<NodeState>, deadIdx: nat)
    ensures multiset(r) == multiset(nodes) && deadIdx <= |r| == |nodes|
    ensures forall k :: 0 <= k < |r| ==> (r[k].status == Dead <==> k >= deadIdx)
  {
    r := nodes;
    var numDead, n, i := 0, |nodes|, 0;
    while i < n - numDead
      invariant 0 <= i <= n - numDead <= n == |r| && multiset(r) == multiset(nodes)
      invariant forall k :: 0 <= k < i ==> r[k].status != Dead
      invariant forall k :: n - numDead <= k < n ==> r[k].status == Dead
      decreases n - numDead - i
    {
      if r[i].status != Dead {
        i := i + 1;
      } else {
        r := Swapped(r, i, n - numDead - 1);
        numDead := numDead + 1;
      }
    }
    deadIdx := n - numDead;
  }

  method ShuffleNodes(nodes: seq<NodeState>, rnd: seq<nat>) returns (r: seq<NodeState>)
    requires |rnd| >= |nodes|
    ensures multiset(r) == multiset(nodes) && r == Shuffled(nodes, rnd)
  {
    r := nodes;
    for i := 0 to |nodes|
      invariant |r| == |nodes| && multiset(r) == multiset(nodes) && r == Shuffled(nodes[..i], rnd) + nodes[i..]
    {
      ShuffleStep(nodes, rnd, i);
      r := Swapped(r, i, rnd[i] % (i + 1));
    }
    assert nodes[..|nodes|] == nodes && Shuffled(nodes, rnd) + [] == Shuffled(nodes, rnd);
  }

  ghost function Names(s: seq<NodeState>): set<Name> { set x | x in s :: x.name }

  lemma ReapedNames(ns: seq<NodeState>, nodeMap: map<Name, NodeState>, deadIdx: nat, n: Name)
    requires Consistent(multiset(ns), nodeMap) && deadIdx <= |ns| && n in nodeMap
    requires forall k :: 0 <= k < |ns| ==> (ns[k].status == Dead <==> k >= deadIdx)
    ensures n in Names(ns[deadIdx..]) <==> nodeMap[n].status == Dead
  {
    var x := nodeMap[n];
    assert x in multiset(ns);
    var k :| 0 <= k < |ns| && ns[k] == x;
    if k >= deadIdx { assert ns[deadIdx..][k - deadIdx] == x; }
    if n in Names(ns[deadIdx..]) {
      var y :| y in ns[deadIdx..] && y.name == n;
      var j :| 0 <= j < |ns[deadIdx..]| && ns[deadIdx..][j] == y;
      assert ns[deadIdx + j] == y && y in multiset(ns);
    }
  }

  lemma ReapedConsistent(ns: seq<NodeState>, nodeMap: map<Name, NodeState>, deadIdx: nat)
    requires Consistent(multiset(ns), nodeMap) && deadIdx <= |ns|
    requires forall k :: 0 <= k < |ns| ==> (ns[k].status == Dead <==> k >= deadIdx)
    ensures Consistent(multiset(ns[..deadIdx]), nodeMap - Names(ns[deadIdx..]))
    ensures forall n :: n in nodeMap ==> (n in Names(ns[deadIdx..]) <==> nodeMap[n].status == Dead)
  {
    var live, kept := ns[..deadIdx], nodeMap - Names(ns[deadIdx..]);
    forall n | n in nodeMap ensures n in kept <==> nodeMap[n].status != Dead { ReapedNames(ns, nodeMap, deadIdx, n); }
    assert ns == live + ns[deadIdx..];
    assert multiset(ns) == multiset(live) + multiset(ns[deadIdx..]);
    forall x: NodeState | x in multiset(live) ensures multiset(live)[x] == 1 && x.name in kept && kept[x.name] == x {
      assert x in multiset(ns);
      var k :| 0 <= k < |live| && live[k] == x;
      assert ns[k] == x;
    }
    forall n | n in kept ensures kept[n] in multiset(live) && kept[n].name == n {
      assert nodeMap[n] in multiset(ns);
      var k :| 0 <= k < |ns| && ns[k] == nodeMap[n];
      assert live[k] == nodeMap[n];
    }
  }
}
