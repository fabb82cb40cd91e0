/**
  What each message makes of a view, written out for every case: the record afterwards, the one
  broadcast that is queued, and when nothing happens at all.  Module Gossip computes these views
  by following the handlers.
 */
module GossipLaws {
  import opened Bytes
  import opened Gossip

  /** The view with one record replaced and one broadcast queued. */
  ghost function Told(v: View, n: Name, r: Rec, m: Msg): View {
    View(v.members[n := r], v.counter, v.leave, v.sent + [m])
  }

  ghost const NO_VERSIONS: Blob := [0, 0, 0, 0, 0, 0]

  lemma SameRecord(members: map<Name, Rec>, n: Name)
    requires n in members
    ensures members[n := members[n]] == members
  {
  }

  // ---------- which messages the handlers return from ----------

  /** All but an alive message that is taken over with one to five version bytes, and an
      accusation of the largest incarnation that would have to be answered. */
  lemma ReturnsIff(me: Name, v: View, m: Msg)
    ensures m.Node() != me && !m.AliveM? ==> Answerable(me, v, m)
    ensures m.Node() != me && m.AliveM? ==>
              (Answerable(me, v, m) <==> !(1 <= |m.a.vsn| <= 5) || !Fresher(v, m.a))
    ensures m.Node() == me && m.Inc() < 0xFFFF_FFFF ==> Answerable(me, v, m)
    ensures m.Node() == me && m.Inc() == 0xFFFF_FFFF && m.SuspectM? ==>
              (Answerable(me, v, m) <==> me !in v.members || v.members[me].status != Alive)
    ensures m.Node() == me && m.Inc() == 0xFFFF_FFFF && m.DeadM? ==>
              (Answerable(me, v, m) <==> v.leave || me !in v.members || v.members[me].status == Dead)
  {
  }

  /** The message says something new about a member: a newer incarnation from the same address. */
  ghost predicate Fresher(v: View, a: AliveMsg) {
    if a.node in v.members
    then a.addr == v.members[a.node].addr && a.port == v.members[a.node].port && a.inc > v.members[a.node].inc
    else a.inc > 0
  }

  // ---------- messages about other members ----------

  /** An alive message about another member: the converse of RevivedOnlyByNewerAlive, and more.  A
      known member at the same address is taken over at a newer incarnation; an unknown one at any
      above 0, and at 0 it is entered as dead. */
  lemma AliveIs(me: Name, v: View, a: AliveMsg)
    requires Answerable(me, v, AliveM(a)) && a.node != me
    ensures a.node in v.members ==>
              var r := v.members[a.node];
              On(me, v, AliveM(a)) ==
                if a.addr == r.addr && a.port == r.port && a.inc > r.inc
                then Told(v, a.node, Rec(r.addr, r.port, a.meta, if a.vsn == [] then r.vsn else a.vsn[..6], Alive,
                                         a.inc), AliveM(a))
                else v
    ensures a.node !in v.members ==>
              On(me, v, AliveM(a)) ==
                if a.inc > 0
                then Told(v, a.node, Rec(a.addr, a.port, a.meta, if a.vsn == [] then NO_VERSIONS else a.vsn[..6], Alive,
                                         a.inc), AliveM(a))
                else v.(members := v.members[a.node := Rec(a.addr, a.port, a.meta, NO_VERSIONS, Dead, 0)])
  {
    if a.node in v.members { SameRecord(v.members, a.node); }
  }

  /** A suspicion counts against a member that is alive, from its own incarnation on. */
  lemma SuspectIs(me: Name, v: View, s: Accusation)
    requires s.node != me
    ensures Answerable(me, v, SuspectM(s))
    ensures On(me, v, SuspectM(s)) ==
              if s.node in v.members && v.members[s.node].status == Alive && s.inc >= v.members[s.node].inc
              then Told(v, s.node, v.members[s.node].(status := Suspect, inc := s.inc), SuspectM(s))
              else v
  {
  }

  /** A declaration of death counts against a member that is not dead, from its incarnation on. */
  lemma DeadIs(me: Name, v: View, d: Accusation)
    requires d.node != me
    ensures Answerable(me, v, DeadM(d))
    ensures On(me, v, DeadM(d)) ==
              if d.node in v.members && v.members[d.node].status != Dead && d.inc >= v.members[d.node].inc
              then Told(v, d.node, v.members[d.node].(status := Dead, inc := d.inc), DeadM(d))
              else v
  {
  }

  // ---------- messages about the local member ----------

  /** The local member answers: it takes a higher incarnation, which its counter has then reached,
      and announces the record it has. */
  ghost predicate Answers(me: Name, v: View, r: Rec, accused: nat, v': View) {
    var n := v'.counter;
    && n > accused && n == (if (v.counter + 1) % 0x1_0000_0000 > accused then (v.counter + 1) % 0x1_0000_0000
                            else accused + 1)
    && v' == View(v.members[me := r.(inc := n)], n, v.leave,
                  v.sent + [AliveM(AliveMsg(me, n, r.addr, r.port, r.meta, r.vsn))])
  }

  /** Accusations are answered while the member is not leaving; a leaving member records and
      passes on its own death. */
  lemma AccusedIs(me: Name, v: View, m: Msg)
    requires (m.SuspectM? || m.DeadM?) && m.acc.node == me && Answerable(me, v, m)
    ensures me !in v.members ==> On(me, v, m) == v
    ensures me in v.members ==>
              var r := v.members[me];
              if m.acc.inc < r.inc || r.status == Dead || (m.SuspectM? && r.status == Suspect) then On(me, v, m) == v
              else if m.DeadM? && v.leave then On(me, v, m) == Told(v, me, r.(status := Dead, inc := m.acc.inc), m)
              else Answers(me, v, r, m.acc.inc, On(me, v, m))
  {
  }

  /** What others claim to be alive under the local name is answered too, unless it is old, comes
      from another address, says what is known, or the member is leaving. */
  lemma ClaimedIs(me: Name, v: View, a: AliveMsg)
    requires a.node == me && Answerable(me, v, AliveM(a))
    ensures v.leave ==> On(me, v, AliveM(a)) == v
    ensures !v.leave && me in v.members ==>
              var r := v.members[me];
              if a.addr != r.addr || a.port != r.port || a.inc < r.inc
                 || (a.inc == r.inc && a.meta == r.meta && a.vsn == r.vsn)
              then On(me, v, AliveM(a)) == v else Answers(me, v, r, a.inc, On(me, v, AliveM(a)))
    ensures !v.leave && me !in v.members ==>
              var r := Rec(a.addr, a.port, a.meta, NO_VERSIONS, Dead, 0);
              if a.inc == 0 && a.vsn == NO_VERSIONS
              then On(me, v, AliveM(a)) == v.(members := v.members[me := r])
              else Answers(me, v, r, a.inc, On(me, v, AliveM(a)))
  {
    if me in v.members { SameRecord(v.members, me); }
    if !v.leave && me !in v.members {
      var r := Rec(a.addr, a.port, a.meta, NO_VERSIONS, Dead, 0);
      var x := r.(inc := On(me, v, AliveM(a)).counter);
      assert v.members[me := r][me := x] == v.members[me := x];
    }
  }

  /** What the member announces itself is taken over, at its incarnation or a newer one. */
  lemma AnnouncedIs(me: Name, v: View, a: AliveMsg)
    requires a.node == me && (Accepts(me, v, a, true) ==> VersionsOk(a)) && !v.leave
    ensures me in v.members ==>
              var r := v.members[me];
              OnAlive(me, v, a, true) ==
                if a.addr == r.addr && a.port == r.port && a.inc >= r.inc
                then Told(v, me, Rec(r.addr, r.port, a.meta, if a.vsn == [] then r.vsn else a.vsn[..6], Alive, a.inc),
                          AliveM(a))
                else v
    ensures me !in v.members ==>
              OnAlive(me, v, a, true) ==
                Told(v, me, Rec(a.addr, a.port, a.meta, if a.vsn == [] then NO_VERSIONS else a.vsn[..6], Alive, a.inc),
                     AliveM(a))
  {
    if me in v.members { SameRecord(v.members, me); }
  }

  /** Leaving: the member is recorded as dead at its own incarnation, and says so once. */
  lemma LeavingIs(me: Name, v: View)
    requires me in v.members && v.members[me].status != Dead
    ensures var w := v.(leave := true);
            var d := DeadM(Accusation(me, v.members[me].inc, []));
            Answerable(me, w, d) && On(me, w, d) == Told(w, me, v.members[me].(status := Dead), d)
  {
  }

  // ---------- tables of other members ----------

  /** A pushed entry of a live member acts as an alive message, and any other as a suspicion by the
      local member: nobody is declared dead by a table. */
  lemma PushedIs(me: Name, v: View, n: Name, r: Rec)
    requires n != me && n in v.members && Answerable(me, v, PushMsg(me, n, r))
    ensures var q := v.members[n];
            var v' := On(me, v, PushMsg(me, n, r));
            if r.status == Alive && r.addr == q.addr && r.port == q.port && r.inc > q.inc
            then v' == Told(v, n, Rec(q.addr, q.port, r.meta, if r.vsn == [] then q.vsn else r.vsn[..6], Alive, r.inc),
                            AliveM(AliveMsg(n, r.inc, r.addr, r.port, r.meta, r.vsn)))
            else if r.status != Alive && q.status == Alive && r.inc >= q.inc
            then v' == Told(v, n, q.(status := Suspect, inc := r.inc), SuspectM(Accusation(n, r.inc, me)))
            else v' == v
  {
    if r.status == Alive {
      AliveIs(me, v, AliveMsg(n, r.inc, r.addr, r.port, r.meta, r.vsn));
    } else {
      SuspectIs(me, v, Accusation(n, r.inc, me));
    }
  }

  /** What a message does to another member depends on what is known of that member only. */
  lemma OnlyItsRecord(me: Name, v: View, w: View, m: Msg)
    requires m.Node() != me && Answerable(me, v, m) && (m.Node() in v.members <==> m.Node() in w.members)
    requires m.Node() in v.members ==> v.members[m.Node()] == w.members[m.Node()]
    ensures Answerable(me, w, m)
    ensures m.Node() in On(me, v, m).members <==> m.Node() in On(me, w, m).members
    ensures m.Node() in On(me, v, m).members ==> On(me, v, m).members[m.Node()] == On(me, w, m).members[m.Node()]
  {
  }

  lemma {:induction false} MergeOthers(me: Name, v: View, ms: seq<Msg>, n: Name)
    requires Mergeable(me, v, ms) && forall i :: 0 <= i < |ms| ==> ms[i].Node() != n
    ensures n in Merge(me, v, ms).members <==> n in v.members
    ensures n in v.members ==> Merge(me, v, ms).members[n] == v.members[n]
    decreases |ms|
  {
    if ms == [] {
    } else {
      OthersUntouched(me, v, ms[0], n);
      MergeOthers(me, On(me, v, ms[0]), ms[1..], n);
    }
  }

  /** Merging a state that names each member once does to each other member what its entry alone
      would do. */
  lemma {:induction false} MergedEntry(me: Name, v: View, ms: seq<Msg>, k: nat)
    requires Mergeable(me, v, ms) && DistinctNodes(ms) && k < |ms| && ms[k].Node() != me
    ensures Answerable(me, v, ms[k])
    ensures var n := ms[k].Node();
            && (n in Merge(me, v, ms).members <==> n in On(me, v, ms[k]).members)
            && (n in On(me, v, ms[k]).members ==> Merge(me, v, ms).members[n] == On(me, v, ms[k]).members[n])
    decreases |ms|
  {
    var n, w := ms[k].Node(), On(me, v, ms[0]);
    if k == 0 {
      MergeOthers(me, w, ms[1..], n);
    } else {
      MergedEntry(me, w, ms[1..], k - 1);
      OthersUntouched(me, v, ms[0], n);
      OnlyItsRecord(me, w, v, ms[k]);
    }
  }
}
