/**
  The membership protocol on values: what a member knows about the others, and how alive,
  suspect and dead messages change it.  Membership.dfy holds the code that updates the shared
  records in place and is proved to do exactly this.
 */
module Gossip {
  import opened Bytes

  type Name = seq<Byte>

  const MAX_U32: nat := 0xFFFF_FFFF
  type Uint32 = x: nat | x <= MAX_U32

  datatype Status = Alive | Suspect | Dead

  datatype Rec = Rec(addr: Blob, port: nat, meta: Blob, vsn: Blob, status: Status, inc: Uint32)

  datatype AliveMsg = AliveMsg(node: Name, inc: Uint32, addr: Blob, port: nat, meta: Blob, vsn: Blob)

  datatype Accusation = Accusation(node: Name, inc: Uint32, from: Name)

  datatype Msg = AliveM(a: AliveMsg) | SuspectM(acc: Accusation) | DeadM(acc: Accusation) {
    function Node(): Name { if AliveM? then a.node else acc.node }
    function Inc(): Uint32 { if AliveM? then a.inc else acc.inc }
  }

  /** members: the records by name; counter: the local incarnation counter; leave: whether this
      member is leaving; sent: the broadcasts queued so far. */
  datatype View = View(members: map<Name, Rec>, counter: Uint32, leave: bool, sent: seq<Msg>)

  // ---------- the handlers ----------

  function Unknown(a: AliveMsg): Rec { Rec(a.addr, a.port, a.meta, [0, 0, 0, 0, 0, 0], Dead, 0) }

  function Entry(v: View, a: AliveMsg): Rec { if a.node in v.members then v.members[a.node] else Unknown(a) }

  /** The incarnation that refutes an accusation: the counter moves on, wrapping at 32 bits,
      until it is above the accused incarnation. */
  function Refuted(counter: Uint32, accused: Uint32): Uint32
    requires accused < MAX_U32
  {
    var next := (counter + 1) % (MAX_U32 + 1);
    if next > accused then next else accused + 1
  }

  /** Does the message start a refutation? */
  predicate Refutes(me: Name, v: View, m: Msg) {
    && m.Node() == me && (m.AliveM? || me in v.members)
    && match m
       case AliveM(a) =>
         var r := Entry(v, a);
         && !v.leave && r.addr == a.addr && r.port == a.port && r.inc <= a.inc
         && !(a.inc == r.inc && a.meta == r.meta && a.vsn == r.vsn)
       case SuspectM(s) => v.members[me].inc <= s.inc && v.members[me].status == Alive
       case DeadM(d) => !v.leave && v.members[me].inc <= d.inc && v.members[me].status != Dead
  }

  /** Is what the message says taken over into the record?  Of the local member only what it
      announces itself is. */
  predicate Accepts(me: Name, v: View, a: AliveMsg, bootstrap: bool) {
    var r := Entry(v, a);
    && !(v.leave && a.node == me) && r.addr == a.addr && r.port == a.port
    && if a.node == me then bootstrap && r.inc <= a.inc else r.inc < a.inc
  }

  /** An alive message carries no versions or at least six. */
  predicate VersionsOk(a: AliveMsg) { |a.vsn| == 0 || |a.vsn| >= 6 }

  /** The handler of the message returns.  A refutation does not end for an accusation of the
      largest incarnation, and versions are indexed when a message is taken over. */
  predicate Answerable(me: Name, v: View, m: Msg) {
    && (Refutes(me, v, m) ==> m.Inc() < MAX_U32)
    && (m.AliveM? && Accepts(me, v, m.a, false) ==> VersionsOk(m.a))
  }

  function Refute(me: Name, v: View, accused: Uint32): View
    requires me in v.members && accused < MAX_U32
  {
    var r := v.members[me];
    var n := Refuted(v.counter, accused);
    View(v.members[me := r.(inc := n)], n, v.leave,
         v.sent + [AliveM(AliveMsg(me, n, r.addr, r.port, r.meta, r.vsn))])
  }

  function Accept(v: View, a: AliveMsg): View
    requires a.node in v.members && VersionsOk(a)
  {
    var r := v.members[a.node];
    var vsn := if |a.vsn| > 0 then a.vsn[..6] else r.vsn;
    v.(members := v.members[a.node := Rec(r.addr, r.port, a.meta, vsn, Alive, a.inc)], sent := v.sent + [AliveM(a)])
  }

  function OnAlive(me: Name, v: View, a: AliveMsg, bootstrap: bool): View
    requires if bootstrap then Accepts(me, v, a, true) ==> VersionsOk(a) else Answerable(me, v, AliveM(a))
  {
    if v.leave && a.node == me then v
    else
      var r := Entry(v, a);
      var v1 := v.(members := v.members[a.node := r]);
      if r.addr != a.addr || r.port != a.port then v1
      else if a.inc < r.inc || (a.inc == r.inc && a.node != me) then v1
      else if bootstrap || a.node != me then Accept(v1, a)
      else if a.inc == r.inc && a.meta == r.meta && a.vsn == r.vsn then v1
      else Refute(me, v1, a.inc)
  }

  function Mark(v: View, acc: Accusation, status: Status, m: Msg): View
    requires acc.node in v.members
  {
    v.(members := v.members[acc.node := v.members[acc.node].(status := status, inc := acc.inc)], sent := v.sent + [m])
  }

  /** What a message from the network does. */
  function On(me: Name, v: View, m: Msg): View
    requires Answerable(me, v, m)
  {
    match m
    case AliveM(a) => OnAlive(me, v, a, false)
    case SuspectM(s) =>
      if s.node !in v.members || s.inc < v.members[s.node].inc || v.members[s.node].status != Alive then v
      else if s.node == me then Refute(me, v, s.inc)
      else Mark(v, s, Suspect, m)
    case DeadM(d) =>
      if d.node !in v.members || d.inc < v.members[d.node].inc || v.members[d.node].status == Dead then v
      else if d.node == me && !v.leave then Refute(me, v, d.inc)
      else Mark(v, d, Dead, m)
  }

  // ---------- refutation ----------

  /** The k-th incarnation that the refutation loop tries, counting from 1. */
  function Tried(counter: Uint32, k: nat): Uint32 { (counter + k) % (MAX_U32 + 1) }

  /** The loop ends exactly for accusations below the largest incarnation.  Then Refuted is the
      first number tried that is above the accusation. */
  lemma RefutationEndsIff(counter: Uint32, accused: Uint32)
    ensures (exists k: nat :: k >= 1 && Tried(counter, k) > accused) <==> accused < 0xFFFF_FFFF
    ensures accused < 0xFFFF_FFFF ==>
              exists k: nat :: k >= 1 && Refuted(counter, accused) == Tried(counter, k) > accused
                && forall j: nat :: 1 <= j < k ==> Tried(counter, j) <= accused
  {
    if accused < MAX_U32 {
      var k: nat := if (counter + 1) % (MAX_U32 + 1) > accused then 1
                    else if counter < MAX_U32 then accused + 1 - counter else accused + 2;
      assert Refuted(counter, accused) == Tried(counter, k) > accused;
    }
  }

  // ---------- remote members only move forward ----------

  function Rank(s: Status): nat { match s case Alive => 0 case Suspect => 1 case Dead => 2 }

  predicate Newer(r: Rec, r': Rec) {
    r'.inc > r.inc || (r'.inc == r.inc && Rank(r'.status) > Rank(r.status))
  }

  /** One message leaves the record of a remote member alone or moves it strictly forward. */
  lemma RemoteMovesForward(me: Name, v: View, m: Msg, n: Name)
    requires Answerable(me, v, m) && n in v.members && n != me
    ensures var v' := On(me, v, m);
            n in v'.members && (v'.members[n] == v.members[n] || Newer(v.members[n], v'.members[n]))
  {
  }

  /** A dead member comes back only by a newer alive message about it. */
  lemma RevivedOnlyByNewerAlive(me: Name, v: View, m: Msg, n: Name)
    requires Answerable(me, v, m) && n in v.members && n != me && v.members[n].status == Dead
    ensures var v' := On(me, v, m);
            n in v'.members && (v'.members[n].status != Dead ==>
              m.AliveM? && m.a.node == n && m.a.inc > v.members[n].inc && v'.members[n].inc == m.a.inc)
  {
  }

  // ---------- redelivery ----------

  /** The message does nothing: this depends only on the addressed record and on leave. */
  predicate Quiet(me: Name, leave: bool, known: bool, r: Rec, m: Msg) {
    match m
    case AliveM(a) =>
      || (leave && a.node == me)
      || (known && (
           || r.addr != a.addr || r.port != a.port || a.inc < r.inc
           || (a.inc == r.inc && (a.node != me || (a.meta == r.meta && a.vsn == r.vsn)))))
    case SuspectM(s) => !known || s.inc < r.inc || r.status != Alive
    case DeadM(d) => !known || d.inc < r.inc || r.status == Dead
  }

  predicate IsQuiet(me: Name, v: View, m: Msg) {
    var known := m.Node() in v.members;
    Quiet(me, v.leave, known, if known then v.members[m.Node()] else Rec([], 0, [], [], Dead, 0), m)
  }

  lemma QuietChangesNothing(me: Name, v: View, m: Msg)
    requires IsQuiet(me, v, m)
    ensures Answerable(me, v, m) && On(me, v, m) == v
  {
    if m.AliveM? && m.a.node in v.members { assert v.members[m.a.node := v.members[m.a.node]] == v.members; }
  }

  /** Delivering a message a second time changes nothing. */
  lemma Redelivery(me: Name, v: View, m: Msg)
    requires Answerable(me, v, m)
    ensures IsQuiet(me, On(me, v, m), m)
    ensures Answerable(me, On(me, v, m), m) && On(me, On(me, v, m), m) == On(me, v, m)
  {
    QuietChangesNothing(me, On(me, v, m), m);
  }

  // ---------- push/pull exchanges ----------

  /** An entry of a remote member's state: dead entries are only suspected. */
  function PushMsg(me: Name, node: Name, r: Rec): Msg {
    if r.status == Alive then AliveM(AliveMsg(node, r.inc, r.addr, r.port, r.meta, r.vsn))
    else SuspectM(Accusation(node, r.inc, me))
  }

  /** Every message can be answered when its turn comes. */
  predicate Mergeable(me: Name, v: View, ms: seq<Msg>)
    decreases |ms|
  {
    ms != [] ==> Answerable(me, v, ms[0]) && Mergeable(me, On(me, v, ms[0]), ms[1..])
  }

  function Merge(me: Name, v: View, ms: seq<Msg>): View
    requires Mergeable(me, v, ms)
    decreases |ms|
  {
    if ms == [] then v else Merge(me, On(me, v, ms[0]), ms[1..])
  }

  predicate DistinctNodes(ms: seq<Msg>) { forall i, j :: 0 <= i < j < |ms| ==> ms[i].Node() != ms[j].Node() }

  lemma OthersUntouched(me: Name, v: View, m: Msg, n: Name)
    requires Answerable(me, v, m) && n != m.Node()
    ensures var v' := On(me, v, m);
            v'.leave == v.leave && (n in v'.members <==> n in v.members) && (n in v.members ==>
                 v'.members[n] == v.members[n])
  {
  }

  lemma {:induction false} MergeKeeps(me: Name, v: View, ms: seq<Msg>, q: Msg)
    requires Mergeable(me, v, ms) && (forall i :: 0 <= i < |ms| ==> ms[i].Node() != q.Node()) && IsQuiet(me, v, q)
    ensures IsQuiet(me, Merge(me, v, ms), q)
    decreases |ms|
  {
    if ms == [] {
    } else {
      OthersUntouched(me, v, ms[0], q.Node());
      MergeKeeps(me, On(me, v, ms[0]), ms[1..], q);
    }
  }

  lemma {:induction false} MergeQuiets(me: Name, v: View, ms: seq<Msg>, k: nat)
    requires Mergeable(me, v, ms) && DistinctNodes(ms) && k < |ms|
    ensures IsQuiet(me, Merge(me, v, ms), ms[k])
    decreases |ms|
  {
    Redelivery(me, v, ms[0]);
    if k == 0 {
      MergeKeeps(me, On(me, v, ms[0]), ms[1..], ms[0]);
    } else {
      MergeQuiets(me, On(me, v, ms[0]), ms[1..], k - 1);
    }
  }

  lemma {:induction false} QuietMerge(me: Name, v: View, ms: seq<Msg>)
    requires forall k :: 0 <= k < |ms| ==> IsQuiet(me, v, ms[k])
    ensures Mergeable(me, v, ms) && Merge(me, v, ms) == v
    decreases |ms|
  {
    if ms == [] {
    } else {
      QuietChangesNothing(me, v, ms[0]);
      QuietMerge(me, v, ms[1..]);
    }
  }

  /** Nothing is forgotten: broadcasts and known members only become more. */
  ghost predicate Grows(v: View, v': View) { |v.sent| <= |v'.sent| && v.members.Keys <= v'.members.Keys }

  lemma OnGrows(me: Name, v: View, m: Msg)
    requires Answerable(me, v, m)
    ensures Grows(v, On(me, v, m)) && (!IsQuiet(me, v, m) ==> !Grows(On(me, v, m), v))
  {
  }

  lemma {:induction false} MergeGrows(me: Name, v: View, ms: seq<Msg>)
    requires Mergeable(me, v, ms)
    ensures Grows(v, Merge(me, v, ms))
    decreases |ms|
  {
    if ms == [] {
    } else {
      OnGrows(me, v, ms[0]);
      MergeGrows(me, On(me, v, ms[0]), ms[1..]);
    }
  }

  /** Merging a state leaves a view alone if and only if every message in it is quiet there. */
  lemma {:induction false} MergeChangesNothingIff(me: Name, v: View, ms: seq<Msg>)
    ensures Mergeable(me, v, ms) && Merge(me, v, ms) == v <==> forall k :: 0 <= k < |ms| ==> IsQuiet(me, v, ms[k])
    decreases |ms|
  {
    if forall k :: 0 <= k < |ms| ==> IsQuiet(me, v, ms[k]) {
      QuietMerge(me, v, ms);
    } else if Mergeable(me, v, ms) {
      if IsQuiet(me, v, ms[0]) {
        QuietChangesNothing(me, v, ms[0]);
        MergeChangesNothingIff(me, v, ms[1..]);
        assert forall k :: 0 < k < |ms| ==> ms[k] == ms[1..][k - 1];
      } else {
        OnGrows(me, v, ms[0]);
        MergeGrows(me, On(me, v, ms[0]), ms[1..]);
      }
    }
  }

  /** Merging the same state a second time changes nothing if and only if each of its messages is
      quiet in the view that the first time has left. */
  lemma MergeTwiceIff(me: Name, v: View, ms: seq<Msg>)
    requires Mergeable(me, v, ms)
    ensures var w := Merge(me, v, ms);
            Mergeable(me, w, ms) && Merge(me, w, ms) == w <==> forall k :: 0 <= k < |ms| ==> IsQuiet(me, w, ms[k])
  {
    MergeChangesNothingIff(me, Merge(me, v, ms), ms);
  }

  /** So it is for a state that names each member once. */
  lemma MergeTwice(me: Name, v: View, ms: seq<Msg>)
    requires Mergeable(me, v, ms) && DistinctNodes(ms)
    ensures Mergeable(me, Merge(me, v, ms), ms) && Merge(me, Merge(me, v, ms), ms) == Merge(me, v, ms)
  {
    forall k | 0 <= k < |ms| ensures IsQuiet(me, Merge(me, v, ms), ms[k]) { MergeQuiets(me, v, ms, k); }
    MergeTwiceIff(me, v, ms);
  }

  // ---------- whole runs ----------

  datatype Event = Deliver(m: Msg) | Bump | Announce(a: AliveMsg) | StartLeave | Reap

  function Reaped(members: map<Name, Rec>): map<Name, Rec> {
    map n | n in members && members[n].status != Dead :: members[n]
  }

  /** Bump and Announce are the two halves of advertising the local member: take a new
      incarnation, and later apply an alive message carrying an incarnation that was taken. */
  ghost predicate Step(me: Name, v: View, e: Event, v': View) {
    match e
    case Deliver(m) => Answerable(me, v, m) && v' == On(me, v, m)
    case Bump => v' == v.(counter := Tried(v.counter, 1))
    case Announce(a) =>
      && a.node == me && a.inc <= v.counter && (Accepts(me, v, a, true) ==> VersionsOk(a))
      && (me in v.members ==> a.addr == v.members[me].addr && a.port == v.members[me].port)
      && v' == OnAlive(me, v, a, true)
    case StartLeave => v' == v.(leave := true)
    case Reap => v' == v.(members := Reaped(v.members))
  }

  ghost predicate IsRun(me: Name, run: seq<View>, es: seq<Event>) {
    && |run| == |es| + 1
    && forall k {:trigger es[k]} :: 0 <= k < |es| ==> Step(me, run[k], es[k], run[k + 1])
  }

  /** The local member is alive, at an incarnation its counter has reached. */
  ghost predicate LocalOk(me: Name, v: View) {
    me in v.members && v.members[me].status == Alive && v.members[me].inc <= v.counter
  }

  /** setAlive on an empty map: the first incarnation is announced. */
  lemma SetAlive(me: Name, v: View, a: AliveMsg)
    requires v.members == map[] && v.counter == 0 && !v.leave && a.node == me && a.inc == 1 && VersionsOk(a)
    ensures Step(me, v, Bump, v.(counter := 1))
            && Step(me, v.(counter := 1), Announce(a), OnAlive(me, v.(counter := 1), a, true))
    ensures LocalOk(me, OnAlive(me, v.(counter := 1), a, true))
  {
  }

  lemma LocalStep(me: Name, v: View, e: Event, v': View)
    requires Step(me, v, e, v') && LocalOk(me, v) && !v.leave && !(e.Bump? && v.counter == MAX_U32)
    ensures LocalOk(me, v')
  {
  }

  /** Only a wrap-around of the counter between two announcements breaks the bound. */
  lemma BumpKeepsLocalIff(me: Name, v: View, v': View)
    requires Step(me, v, Bump, v') && LocalOk(me, v)
    ensures LocalOk(me, v') <==> v.counter < MAX_U32 || v.members[me].inc == 0
  {
  }

  /** Until it leaves, the local member stays alive whatever the others claim. */
  lemma {:induction false} LocalStaysAlive(me: Name, run: seq<View>, es: seq<Event>, k: nat)
    requires IsRun(me, run, es) && LocalOk(me, run[0]) && k <= |es| && (forall j :: 0 <= j < k ==> !run[j].leave)
    requires forall j {:trigger es[j]} :: 0 <= j < k ==> !(es[j].Bump? && run[j].counter == MAX_U32)
    ensures LocalOk(me, run[k])
  {
    if k == 0 {
    } else {
      LocalStaysAlive(me, run, es, k - 1);
      LocalStep(me, run[k - 1], es[k - 1], run[k]);
    }
  }

  /** Every answer to an accusation is broadcast above it, and is the local record from then on. */
  lemma RefutationIsAbove(me: Name, v: View, m: Msg)
    requires Refutes(me, v, m) && m.Inc() < MAX_U32
    ensures var v' := On(me, v, m);
            && me in v'.members && v'.members[me].inc == v'.counter > m.Inc()
            && |v'.sent| == |v.sent| + 1 && v'.sent[|v.sent|].AliveM?
            && v'.sent[|v.sent|].a.node == me && v'.sent[|v.sent|].a.inc == v'.counter
  {
  }

  lemma EventMovesForward(me: Name, v: View, e: Event, v': View, n: Name)
    requires Step(me, v, e, v') && n != me && n in v.members && n in v'.members
    ensures v'.members[n] == v.members[n] || Newer(v.members[n], v'.members[n])
  {
    if e.Deliver? { RemoteMovesForward(me, v, e.m, n); }
  }

  /** While a remote member stays in the map, its record is unchanged or strictly newer. */
  lemma {:induction false} RunMovesForward(me: Name, run: seq<View>, es: seq<Event>, i: nat, j: nat, n: Name)
    requires IsRun(me, run, es) && i <= j <= |es| && n != me
    requires forall k :: i <= k <= j ==> n in run[k].members
    ensures run[j].members[n] == run[i].members[n] || Newer(run[i].members[n], run[j].members[n])
  {
    if i == j {
    } else {
      RunMovesForward(me, run, es, i, j - 1, n);
      EventMovesForward(me, run[j - 1], es[j - 1], run[j], n);
    }
  }

  /** The record is at or beyond what the message says. */
  predicate Covered(r: Rec, m: Msg) {
    match m
    case AliveM(a) => a.inc <= r.inc
    case SuspectM(s) => s.inc < r.inc || (s.inc == r.inc && r.status != Alive)
    case DeadM(d) => d.inc < r.inc || (d.inc == r.inc && r.status == Dead)
  }

  lemma EffectIsCovered(me: Name, v: View, m: Msg)
    requires Answerable(me, v, m) && !IsQuiet(me, v, m) && m.Node() != me
    ensures m.Node() in On(me, v, m).members && Covered(On(me, v, m).members[m.Node()], m)
  {
  }

  /** A message about a remote member that once took effect never does again, however late and
      however often it comes back, while the member stays in the map. */
  lemma LateRedelivery(me: Name, run: seq<View>, es: seq<Event>, i: nat, j: nat)
    requires IsRun(me, run, es) && i < j <= |es| && es[i].Deliver? && es[i].m.Node() != me
             && !IsQuiet(me, run[i], es[i].m)
    requires forall k :: i < k <= j ==> es[i].m.Node() in run[k].members
    ensures Answerable(me, run[j], es[i].m) && On(me, run[j], es[i].m) == run[j]
  {
    var m := es[i].m;
    var n := m.Node();
    EffectIsCovered(me, run[i], m);
    RunMovesForward(me, run, es, i + 1, j, n);
    assert Covered(run[j].members[n], m);
    QuietChangesNothing(me, run[j], m);
  }

  /** Merging a state that names a member twice can change something the second time. */
  lemma MergeTwiceNeedsDistinctNodes(me: Name, n: Name)
    requires n != me
    ensures var v := View(map[n := Rec([], 0, [], [], Suspect, 5)], 1, false, []);
            var ms := [SuspectM(Accusation(n, 7, me)), AliveM(AliveMsg(n, 6, [], 0, [], []))];
            && Mergeable(me, v, ms) && Mergeable(me, Merge(me, v, ms), ms)
            && Merge(me, Merge(me, v, ms), ms) != Merge(me, v, ms)
  {
    var v := View(map[n := Rec([], 0, [], [], Suspect, 5)], 1, false, []);
    var s, a := SuspectM(Accusation(n, 7, me)), AliveM(AliveMsg(n, 6, [], 0, [], []));
    var ms := [s, a];
    assert ms[1..] == [a] && [a][1..] == [];
    assert On(me, v, s) == v;
    var w := On(me, v, a);
    assert w.members[n].status == Alive && w.members[n].inc == 6;
    assert Merge(me, v, ms) == Merge(me, v, [a]) == Merge(me, w, []) == w;
    var x := On(me, w, s);
    assert x.members[n].status == Suspect && x.members[n].inc == 7;
    assert On(me, x, a) == x by { assert x.members[n := x.members[n]] == x.members; }
    assert Merge(me, w, ms) == Merge(me, x, [a]) == Merge(me, x, []) == x;
  }
}
