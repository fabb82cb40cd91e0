/**
  The transmit-limited broadcast queue.  An item is a message about a node with the number of
  times it was sent; ids tell broadcasts apart and the finished log records, in order, those
  whose Finished callback was made.
 */
module BroadcastQueue {
  import opened Bytes
  import Gossip

  type Name = Gossip.Name

  datatype Item = Item(transmits: nat, id: nat, node: Name, msg: Blob)

  // ---------- what every operation keeps ----------

  ghost predicate OnePerNode(q: seq<Item>) { forall i, j :: 0 <= i < j < |q| ==> q[i].node != q[j].node }

  ghost predicate NonIncreasing(q: seq<Item>) { forall i, j :: 0 <= i < j < |q| ==> q[i].transmits >= q[j].transmits }

  ghost function Count(q: seq<Item>, id: nat): nat {
    if q == [] then 0 else (if q[0].id == id then 1 else 0) + Count(q[1..], id)
  }

  /** Every id issued so far is queued or finished, once in all. */
  ghost predicate Accounted(q: seq<Item>, finished: seq<nat>, issued: nat) {
    forall id: nat :: Count(q, id) + multiset(finished)[id] == if id < issued then 1 else 0
  }

  lemma {:induction false} CountConcat(p: seq<Item>, q: seq<Item>, id: nat)
    ensures Count(p + q, id) == Count(p, id) + Count(q, id)
  {
    if p == [] {
      assert p + q == q;
    } else {
      assert (p + q)[1..] == p[1..] + q;
      CountConcat(p[1..], q, id);
    }
  }

  lemma RemoveSame(p: seq<Item>, q: seq<Item>, j: nat)
    requires multiset(p) == multiset(q) && p != [] && j < |q| && q[j] == p[0]
    ensures multiset(p[1..]) == multiset(q[..j] + q[j + 1..])
  {
    assert p == [p[0]] + p[1..];
    assert q == q[..j] + [q[j]] + q[j + 1..];
    assert multiset(p[1..]) == multiset(p) - multiset{p[0]};
    assert multiset(q[..j] + q[j + 1..]) == multiset(q) - multiset{q[j]};
  }

  lemma {:induction false} CountPermuted(p: seq<Item>, q: seq<Item>, id: nat)
    requires multiset(p) == multiset(q)
    ensures Count(p, id) == Count(q, id)
    decreases |p|
  {
    if p == [] {
      assert |q| == |multiset(q)| == 0;
    } else {
      assert p[0] in multiset(q);
      var j :| 0 <= j < |q| && q[j] == p[0];
      RemoveSame(p, q, j);
      CountPermuted(p[1..], q[..j] + q[j + 1..], id);
      CountConcat(q[..j], q[j + 1..], id);
      assert q[j..][1..] == q[j + 1..] && q == q[..j] + q[j..];
      CountConcat(q[..j], q[j..], id);
    }
  }

  lemma {:induction false} AtMostOnce(p: seq<Item>, x: Item)
    requires OnePerNode(p)
    ensures multiset(p)[x] <= 1
  {
    if p == [] {
    } else {
      assert p == [p[0]] + p[1..];
      assert forall y :: y in p[1..] ==> y.node != p[0].node;
      AtMostOnce(p[1..], x);
    }
  }

  lemma PermutedOnePerNode(p: seq<Item>, q: seq<Item>)
    requires OnePerNode(p) && multiset(p) == multiset(q)
    ensures OnePerNode(q)
  {
    forall i, j | 0 <= i < j < |q| ensures q[i].node != q[j].node {
      assert q[i] in multiset(p) && q[j] in multiset(p);
      var a :| 0 <= a < |p| && p[a] == q[i];
      var b :| 0 <= b < |p| && p[b] == q[j];
      AtMostOnce(p, q[i]);
      if q[i] == q[j] { Twice(q, i, j); }
    }
  }

  lemma Twice(q: seq<Item>, i: nat, j: nat)
    requires i < j < |q| && q[i] == q[j]
    ensures multiset(q)[q[i]] >= 2
  {
    assert q == q[..i] + [q[i]] + q[i + 1..j] + [q[j]] + q[j + 1..];
  }

  // ---------- what GetBroadcasts does to each item ----------

  /** The parameters of one call: bytes added per message, bytes available, transmit limit. */
  datatype Call = Call(overhead: nat, limit: int, transmitLimit: int)

  /** The outcome for a part of the queue: bytes used, messages to send, ids whose broadcast is
      finished, and the items that stay. */
  datatype Swept = Swept(used: nat, sent: seq<Blob>, expired: seq<nat>, kept: seq<Item>)

  ghost predicate Fits(c: Call, x: Item, s: Swept) { s.used + c.overhead + |x.msg| <= c.limit }

  ghost predicate Expires(c: Call, x: Item) { x.transmits + 1 >= c.transmitLimit }

  ghost function Take(c: Call, x: Item, s: Swept): Swept {
    if !Fits(c, x, s) then s.(kept := [x] + s.kept)
    else
      Swept(s.used + c.overhead + |x.msg|, s.sent + [x.msg],
            if Expires(c, x) then s.expired + [x.id] else s.expired,
            if Expires(c, x) then s.kept else [x.(transmits := x.transmits + 1)] + s.kept)
  }

  /** The last item is served first. */
  ghost function Sweep(c: Call, q: seq<Item>): Swept {
    if q == [] then Swept(0, [], [], []) else Take(c, q[0], Sweep(c, q[1..]))
  }

  ghost function Cost(msgs: seq<Blob>, overhead: nat): nat {
    if msgs == [] then 0 else Cost(msgs[..|msgs| - 1], overhead) + overhead + |msgs[|msgs| - 1]|
  }

  /** The messages picked cost what was counted, and fit the limit. */
  lemma {:induction false} SentCost(c: Call, q: seq<Item>)
    ensures Cost(Sweep(c, q).sent, c.overhead) == Sweep(c, q).used
    ensures Sweep(c, q).sent != [] ==> Sweep(c, q).used <= c.limit
  {
    if q == [] {
    } else {
      SentCost(c, q[1..]);
      var s := Sweep(c, q[1..]);
      if Fits(c, q[0], s) { assert (s.sent + [q[0].msg])[..|s.sent|] == s.sent; }
    }
  }

  lemma {:induction false} NothingSent(c: Call, q: seq<Item>)
    requires Sweep(c, q).sent == []
    ensures Sweep(c, q).kept == q && Sweep(c, q).expired == []
  {
    if q == [] {
    } else {
      NothingSent(c, q[1..]);
    }
  }

  lemma {:induction false} KeptOnePerNode(c: Call, q: seq<Item>)
    requires OnePerNode(q)
    ensures OnePerNode(Sweep(c, q).kept)
    ensures forall i :: 0 <= i < |Sweep(c, q).kept| ==>
              exists j :: 0 <= j < |q| && q[j].node == Sweep(c, q).kept[i].node
  {
    if q == [] {
    } else {
      KeptOnePerNode(c, q[1..]);
      var kept := Sweep(c, q[1..]).kept;
      forall i | 0 <= i < |kept| ensures exists j :: 0 < j < |q| && q[j].node == kept[i].node {
        var j :| 0 <= j < |q[1..]| && q[1..][j].node == kept[i].node;
        assert q[j + 1].node == kept[i].node;
      }
    }
  }

  /** Each id goes on being queued or is finished now. */
  lemma {:induction false} KeptIds(c: Call, q: seq<Item>, id: nat)
    ensures Count(Sweep(c, q).kept, id) + multiset(Sweep(c, q).expired)[id] == Count(q, id)
  {
    if q == [] {
    } else {
      KeptIds(c, q[1..], id);
      var kept := Sweep(c, q).kept;
      if kept != Sweep(c, q[1..]).kept { assert kept[1..] == Sweep(c, q[1..]).kept; }
    }
  }

  // ---------- what is sent, and how often ----------

  /** The ids of the broadcasts sent, in the order of the messages. */
  ghost function SentIds(c: Call, q: seq<Item>): seq<nat> {
    if q == [] then []
    else SentIds(c, q[1..]) + if Fits(c, q[0], Sweep(c, q[1..])) then [q[0].id] else []
  }

  /** places[k] is where the k-th broadcast sent stands in the queue: from the end to the front. */
  ghost predicate Places(q: seq<Item>, places: seq<nat>, ids: seq<nat>, msgs: seq<Blob>) {
    && |places| == |ids| == |msgs|
    && (forall k :: 0 <= k < |places| ==> places[k] < |q| && q[places[k]].id == ids[k] && q[places[k]].msg == msgs[k])
    && (forall j, k :: 0 <= j < k < |places| ==> places[j] > places[k])
  }

  lemma PlacesUp(q: seq<Item>, places: seq<nat>, ids: seq<nat>, msgs: seq<Blob>) returns (up: seq<nat>)
    requires q != [] && Places(q[1..], places, ids, msgs)
    ensures Places(q, up, ids, msgs) && |up| == |places|
    ensures forall k :: 0 <= k < |up| ==> up[k] == places[k] + 1
  {
    up := seq(|places|, k requires 0 <= k < |places| => places[k] + 1);
    forall k | 0 <= k < |up| ensures q[up[k]] == q[1..][places[k]] { }
  }

  lemma PlacesFirst(q: seq<Item>, up: seq<nat>, ids: seq<nat>, msgs: seq<Blob>)
    requires q != [] && Places(q, up, ids, msgs) && forall k :: 0 <= k < |up| ==> up[k] > 0
    ensures Places(q, up + [0], ids + [q[0].id], msgs + [q[0].msg])
  {
  }

  /** The messages sent are those of the ids, taken from the end of the queue to its front. */
  lemma {:induction false} SentPlaces(c: Call, q: seq<Item>) returns (places: seq<nat>)
    ensures Places(q, places, SentIds(c, q), Sweep(c, q).sent)
  {
    if q == [] {
      places := [];
    } else {
      hide Places;
      var s, ids := Sweep(c, q[1..]), SentIds(c, q[1..]);
      var ps := SentPlaces(c, q[1..]);
      places := PlacesUp(q, ps, ids, s.sent);
      if Fits(c, q[0], s) {
        PlacesFirst(q, places, ids, s.sent);
        places := places + [0];
      } else {
        assert ids + [] == ids;
      }
    }
  }

  /** A message that is left out would not have fitted any more. */
  lemma {:induction false} LeftOut(c: Call, q: seq<Item>, i: nat)
    requires i < |q| && q[i].id !in SentIds(c, q)
    ensures Sweep(c, q).used + c.overhead + |q[i].msg| > c.limit
  {
    if i == 0 {
    } else {
      assert q[i] == q[1..][i - 1];
      LeftOut(c, q[1..], i - 1);
    }
  }

  /** No two items have the same id. */
  ghost predicate OnePerId(q: seq<Item>) { forall id: nat :: Count(q, id) <= 1 }

  lemma {:induction false} HasId(q: seq<Item>, x: Item)
    requires x in q
    ensures Count(q, x.id) >= 1
  {
    if x == q[0] {
    } else {
      assert x in q[1..];
      HasId(q[1..], x);
    }
  }

  /** y is x after a call: counted once more if it was sent. */
  ghost predicate Counted(ids: seq<nat>, x: Item, y: Item) {
    y == x.(transmits := x.transmits + multiset(ids)[x.id])
  }

  ghost predicate CountedFrom(ids: seq<nat>, q: seq<Item>, y: Item) { exists x :: x in q && Counted(ids, x, y) }

  lemma {:induction false} SentOnce(c: Call, q: seq<Item>, id: nat)
    ensures multiset(SentIds(c, q))[id] <= Count(q, id)
  {
    if q == [] {
    } else {
      SentOnce(c, q[1..], id);
    }
  }

  lemma OtherIds(c: Call, q: seq<Item>, x: Item)
    requires q != [] && OnePerId(q) && x in q[1..]
    ensures x.id != q[0].id && multiset(SentIds(c, q))[x.id] == multiset(SentIds(c, q[1..]))[x.id]
  {
    HasId(q[1..], x);
    assert Count(q, q[0].id) <= 1;
  }

  lemma TailOnePerId(q: seq<Item>)
    requires q != [] && OnePerId(q)
    ensures OnePerId(q[1..])
  {
    forall id: nat ensures Count(q[1..], id) <= 1 { assert Count(q, id) <= 1; }
  }

  /** Every item that stays was counted if it was sent, and is below the limit then. */
  lemma {:induction false} KeptCounted(c: Call, q: seq<Item>, y: Item)
    requires OnePerId(q) && y in Sweep(c, q).kept
    ensures CountedFrom(SentIds(c, q), q, y)
    ensures y.id in SentIds(c, q) ==> y.transmits < c.transmitLimit
  {
    if y in Sweep(c, q[1..]).kept {
      TailOnePerId(q);
      KeptCounted(c, q[1..], y);
      CountedMore(c, q, y);
    } else {
      FirstCounted(c, q, y);
    }
  }

  lemma CountedMore(c: Call, q: seq<Item>, y: Item)
    requires q != [] && OnePerId(q) && CountedFrom(SentIds(c, q[1..]), q[1..], y)
    ensures CountedFrom(SentIds(c, q), q, y) && (y.id in SentIds(c, q) <==> y.id in SentIds(c, q[1..]))
  {
    var x :| x in q[1..] && Counted(SentIds(c, q[1..]), x, y);
    OtherIds(c, q, x);
    assert x in q && Counted(SentIds(c, q), x, y);
  }

  lemma FirstCounted(c: Call, q: seq<Item>, y: Item)
    requires q != [] && OnePerId(q) && y in Sweep(c, q).kept && y !in Sweep(c, q[1..]).kept
    ensures CountedFrom(SentIds(c, q), q, y) && (y.id in SentIds(c, q) ==> y.transmits < c.transmitLimit)
  {
    SentOnce(c, q[1..], q[0].id);
    assert Count(q, q[0].id) <= 1;
    assert Counted(SentIds(c, q), q[0], y);
  }

  /** What was sent and has not stayed is finished. */
  lemma {:induction false} SentStaysOrExpires(c: Call, q: seq<Item>, id: nat)
    requires id in SentIds(c, q)
    ensures id in Sweep(c, q).expired || exists y :: y in Sweep(c, q).kept && y.id == id
  {
    var s := Sweep(c, q[1..]);
    if id in SentIds(c, q[1..]) {
      SentStaysOrExpires(c, q[1..], id);
      if id !in s.expired {
        var y :| y in s.kept && y.id == id;
        assert y in Sweep(c, q).kept;
      }
    } else if !Expires(c, q[0]) {
      assert q[0].(transmits := q[0].transmits + 1) in Sweep(c, q).kept;
    }
  }

  // ---------- the queue ----------

  ghost function Without(q: seq<Item>, node: Name): seq<Item> {
    if q == [] then [] else (if q[0].node == node then [] else [q[0]]) + Without(q[1..], node)
  }

  /** Items are replaced by node, so at most one goes, and order is kept. */
  lemma {:induction false} WithoutIs(q: seq<Item>, node: Name, i: nat)
    requires OnePerNode(q) && i <= |q| && (forall k :: 0 <= k < |q| && k != i ==> q[k].node != node)
    requires i < |q| ==> q[i].node == node
    ensures Without(q, node) == if i < |q| then q[..i] + q[i + 1..] else q
  {
    if q == [] {
    } else {
      WithoutIs(q[1..], node, if i == 0 then |q| - 1 else i - 1);
    }
  }

  /** The finished log after a broadcast about node replaces the one that was queued. */
  ghost function Replaced(q: seq<Item>, node: Name): seq<nat> {
    if q == [] then [] else (if q[0].node == node then [q[0].id] else []) + Replaced(q[1..], node)
  }

  lemma {:induction false} ReplacedIs(q: seq<Item>, node: Name, i: nat)
    requires OnePerNode(q) && i <= |q| && (forall k :: 0 <= k < |q| && k != i ==> q[k].node != node)
    requires i < |q| ==> q[i].node == node
    ensures Replaced(q, node) == if i < |q| then [q[i].id] else []
  {
    if q == [] {
    } else {
      ReplacedIs(q[1..], node, if i == 0 then |q| - 1 else i - 1);
    }
  }

  lemma {:induction false} ReplacedCounts(q: seq<Item>, node: Name, id: nat)
    ensures Count(Without(q, node), id) + multiset(Replaced(q, node))[id] == Count(q, id)
  {
    if q == [] {
    } else {
      ReplacedCounts(q[1..], node, id);
      if q[0].node == node {
        assert Without(q, node) == Without(q[1..], node);
      } else {
        assert Replaced(q, node) == Replaced(q[1..], node);
        assert Without(q, node)[1..] == Without(q[1..], node);
      }
    }
  }

  lemma {:induction false} FindNode(q: seq<Item>, node: Name) returns (i: nat)
    requires OnePerNode(q)
    ensures i <= |q| && (i < |q| ==> q[i].node == node) && forall k :: 0 <= k < |q| && k != i ==> q[k].node != node
  {
    i := 0;
    while i < |q| && q[i].node != node
      invariant i <= |q| && forall k :: 0 <= k < i ==> q[k].node != node
    {
      i := i + 1;
    }
  }

  lemma CutKeeps(q: seq<Item>, i: nat, r: seq<Item>)
    requires OnePerNode(q) && NonIncreasing(q) && i < |q| && r == q[..i] + q[i + 1..]
    ensures OnePerNode(r) && NonIncreasing(r) && forall k :: 0 <= k < |r| ==> r[k].node != q[i].node
  {
    assert forall k :: 0 <= k < i ==> r[k] == q[k];
    assert forall k :: i <= k < |r| ==> r[k] == q[k + 1];
  }

  /** Without keeps order and drops everything about the node. */
  lemma WithoutKeeps(q: seq<Item>, node: Name)
    requires OnePerNode(q) && NonIncreasing(q)
    ensures OnePerNode(Without(q, node)) && NonIncreasing(Without(q, node))
    ensures forall k :: 0 <= k < |Without(q, node)| ==> Without(q, node)[k].node != node
  {
    var i := FindNode(q, node);
    WithoutIs(q, node, i);
    if i < |q| { CutKeeps(q, i, Without(q, node)); }
  }

  ghost predicate Inv(q: seq<Item>, finished: seq<nat>, issued: nat) {
    OnePerNode(q) && NonIncreasing(q) && Accounted(q, finished, issued)
  }

  lemma QueuedInv(q: seq<Item>, finished: seq<nat>, issued: nat, node: Name, msg: Blob)
    requires Inv(q, finished, issued)
    ensures Inv(Without(q, node) + [Item(0, issued, node, msg)], finished + Replaced(q, node), issued + 1)
  {
    var b := Item(0, issued, node, msg);
    WithoutKeeps(q, node);
    forall id: nat ensures Count(Without(q, node) + [b], id) + multiset(finished + Replaced(q, node))[id]
                           == if id < issued + 1 then 1 else 0 {
      ReplacedCounts(q, node, id);
      CountConcat(Without(q, node), [b], id);
    }
  }

  lemma SentInv(c: Call, q: seq<Item>, finished: seq<nat>, issued: nat, r: seq<Item>)
    requires Inv(q, finished, issued) && NonIncreasing(r) && multiset(r) == multiset(Sweep(c, q).kept)
    ensures Inv(r, finished + Sweep(c, q).expired, issued)
  {
    var s := Sweep(c, q);
    KeptOnePerNode(c, q);
    PermutedOnePerNode(s.kept, r);
    forall id: nat ensures Count(r, id) + multiset(finished + s.expired)[id] == if id < issued then 1 else 0 {
      KeptIds(c, q, id);
      CountPermuted(s.kept, r, id);
    }
  }

  /** The count of every queued item is how often its id was sent. */
  ghost predicate Logged(q: seq<Item>, issued: nat, log: seq<nat>) {
    (forall x :: x in q ==> x.transmits == multiset(log)[x.id]) && forall id :: id in log ==> id < issued
  }

  /** The number of times a broadcast may be sent under a transmit limit: at least once. */
  ghost function Most(limit: int): nat { if limit > 1 then limit else 1 }

  /** No id was sent more often than that, and one that was sent so often is finished. */
  ghost predicate Limited(q: seq<Item>, finished: seq<nat>, log: seq<nat>, limit: int) {
    && (forall x :: x in q ==> x.transmits < Most(limit))
    && (forall id: nat :: multiset(log)[id] <= Most(limit))
    && (forall id: nat :: multiset(log)[id] == Most(limit) ==> id in finished)
  }

  lemma {:induction false} WithoutIn(q: seq<Item>, node: Name, x: Item)
    requires x in Without(q, node)
    ensures x in q
  {
    if x in Without(q[1..], node) {
      WithoutIn(q[1..], node, x);
    }
  }

  lemma QueuedLogged(q: seq<Item>, finished: seq<nat>, issued: nat, log: seq<nat>, node: Name, msg: Blob)
    requires Logged(q, issued, log)
    ensures Logged(Without(q, node) + [Item(0, issued, node, msg)], issued + 1, log)
    ensures forall limit :: Limited(q, finished, log, limit) ==>
              Limited(Without(q, node) + [Item(0, issued, node, msg)], finished + Replaced(q, node), log, limit)
  {
    forall x | x in Without(q, node) ensures x in q { WithoutIn(q, node, x); }
    assert issued !in log;
  }

  lemma AccountedOnePerId(q: seq<Item>, finished: seq<nat>, issued: nat)
    requires Accounted(q, finished, issued)
    ensures OnePerId(q) && forall id: nat :: Count(q, id) > 0 ==> id < issued
  {
    forall id: nat ensures Count(q, id) <= 1 && (Count(q, id) > 0 ==> id < issued) {
      assert Count(q, id) + multiset(finished)[id] == if id < issued then 1 else 0;
    }
  }

  lemma SentLogged(c: Call, q: seq<Item>, issued: nat, log: seq<nat>, y: Item)
    requires OnePerId(q) && Logged(q, issued, log) && y in Sweep(c, q).kept
    ensures y.transmits == multiset(log + SentIds(c, q))[y.id]
  {
    KeptCounted(c, q, y);
    var x :| x in q && Counted(SentIds(c, q), x, y);
  }

  lemma SentInLog(c: Call, q: seq<Item>, finished: seq<nat>, issued: nat, log: seq<nat>, r: seq<Item>)
    requires Inv(q, finished, issued) && Logged(q, issued, log) && multiset(r) == multiset(Sweep(c, q).kept)
    ensures Logged(r, issued, log + SentIds(c, q))
  {
    var ids := SentIds(c, q);
    AccountedOnePerId(q, finished, issued);
    forall y | y in r ensures y.transmits == multiset(log + ids)[y.id] {
      assert y in multiset(r);
      SentLogged(c, q, issued, log, y);
    }
    forall id | id in log + ids ensures id < issued {
      if id in ids { SentOnce(c, q, id); }
    }
  }

  lemma {:induction false} ItemWithId(q: seq<Item>, id: nat) returns (x: Item)
    requires Count(q, id) > 0
    ensures x in q && x.id == id
  {
    if q[0].id == id {
      x := q[0];
    } else {
      x := ItemWithId(q[1..], id);
    }
  }

  /** A call adds at most one to each count, and only to counts below the limit. */
  lemma SentAtMost(c: Call, q: seq<Item>, finished: seq<nat>, issued: nat, log: seq<nat>, id: nat)
    requires OnePerId(q) && Logged(q, issued, log) && Limited(q, finished, log, c.transmitLimit)
    ensures multiset(log + SentIds(c, q))[id] <= Most(c.transmitLimit)
    ensures multiset(log + SentIds(c, q))[id] == Most(c.transmitLimit) ==> id in finished + Sweep(c, q).expired
  {
    var ids, s := SentIds(c, q), Sweep(c, q);
    SentOnce(c, q, id);
    assert Count(q, id) <= 1;
    if id in ids {
      var x := ItemWithId(q, id);
      if multiset(log + ids)[id] == Most(c.transmitLimit) && id !in s.expired {
        SentStaysOrExpires(c, q, id);
        var y :| y in s.kept && y.id == id;
        KeptCounted(c, q, y);
        SentLogged(c, q, issued, log, y);
      }
    }
  }

  lemma {:induction false} ExpiredItem(c: Call, q: seq<Item>, id: nat) returns (x: Item)
    requires id in Sweep(c, q).expired
    ensures x in q && x.id == id && id in SentIds(c, q) && x.transmits + 1 >= c.transmitLimit
  {
    if id in Sweep(c, q[1..]).expired {
      x := ExpiredItem(c, q[1..], id);
    } else {
      x := q[0];
    }
  }

  /** A call finishes only what has then been sent as often as its limit says. */
  lemma ExpiredIsSpent(c: Call, q: seq<Item>, issued: nat, log: seq<nat>, id: nat)
    requires Logged(q, issued, log) && id in Sweep(c, q).expired
    ensures multiset(log + SentIds(c, q))[id] >= c.transmitLimit
  {
    var x := ExpiredItem(c, q, id);
    assert id in multiset(SentIds(c, q));
  }

  lemma SentLimited(c: Call, q: seq<Item>, finished: seq<nat>, issued: nat, log: seq<nat>, r: seq<Item>)
    requires Inv(q, finished, issued) && Logged(q, issued, log) && multiset(r) == multiset(Sweep(c, q).kept)
    requires Limited(q, finished, log, c.transmitLimit)
    ensures Limited(r, finished + Sweep(c, q).expired, log + SentIds(c, q), c.transmitLimit)
  {
    AccountedOnePerId(q, finished, issued);
    forall y | y in r ensures y.transmits < Most(c.transmitLimit) {
      assert y in multiset(r);
      KeptCounted(c, q, y);
      var x :| x in q && Counted(SentIds(c, q), x, y);
    }
    forall id: nat
      ensures multiset(log + SentIds(c, q))[id] <= Most(c.transmitLimit)
      ensures multiset(log + SentIds(c, q))[id] == Most(c.transmitLimit) ==> id in finished + Sweep(c, q).expired
    {
      SentAtMost(c, q, finished, issued, log, id);
    }
  }

  ghost function IdsOf(q: seq<Item>): seq<nat> {
    if q == [] then [] else IdsOf(q[..|q| - 1]) + [q[|q| - 1].id]
  }

  lemma {:induction false} IdsCount(q: seq<Item>, id: nat)
    ensures multiset(IdsOf(q))[id] == Count(q, id)
  {
    if q == [] {
    } else {
      IdsCount(q[..|q| - 1], id);
      assert q == q[..|q| - 1] + [q[|q| - 1]];
      CountConcat(q[..|q| - 1], [q[|q| - 1]], id);
    }
  }

  /** Finishing a prefix of the queue. */
  lemma DroppedInv(q: seq<Item>, finished: seq<nat>, issued: nat, k: nat)
    requires Inv(q, finished, issued) && k <= |q|
    ensures Inv(q[k..], finished + IdsOf(q[..k]), issued)
  {
    forall id: nat ensures Count(q[k..], id) + multiset(finished + IdsOf(q[..k]))[id] == if id < issued then 1 else 0 {
      IdsCount(q[..k], id);
      assert q == q[..k] + q[k..];
      CountConcat(q[..k], q[k..], id);
    }
  }

  /** sort.Sort on the reversed order; how it orders equal counts is not specified. */
  method Sort(q: seq<Item>) returns (r: seq<Item>)
    ensures NonIncreasing(r) && multiset(r) == multiset(q)
  {
    r := [];
    for i := 0 to |q|
      invariant NonIncreasing(r) && multiset(r) == multiset(q[..i])
    {
      assert q[..i + 1] == q[..i] + [q[i]];
      r := Insert(r, q[i]);
    }
    assert q[..|q|] == q;
  }

  method Insert(q: seq<Item>, x: Item) returns (r: seq<Item>)
    requires NonIncreasing(q)
    ensures NonIncreasing(r) && multiset(r) == multiset(q) + multiset{x}
  {
    var i := |q|;
    while i > 0 && q[i - 1].transmits < x.transmits
      invariant 0 <= i <= |q| && forall k :: i <= k < |q| ==> q[k].transmits < x.transmits
    {
      i := i - 1;
    }
    InsertedOrdered(q, x, i);
    InsertedMultiset(q, x, i);
    r := q[..i] + [x] + q[i..];
  }

  lemma InsertedOrdered(q: seq<Item>, x: Item, i: nat)
    requires NonIncreasing(q) && i <= |q| && (forall k :: i <= k < |q| ==> q[k].transmits <= x.transmits)
    requires i > 0 ==> q[i - 1].transmits >= x.transmits
    ensures NonIncreasing(q[..i] + [x] + q[i..])
  {
    var r := q[..i] + [x] + q[i..];
    forall k | 0 <= k < |r| ensures r[k] == if k < i then q[k] else if k == i then x else q[k - 1] {
    }
    forall j, k | 0 <= j < k < |r| ensures r[j].transmits >= r[k].transmits {
      if j < i { assert q[j].transmits >= q[i - 1].transmits; }
    }
  }

  lemma InsertedMultiset(q: seq<Item>, x: Item, i: nat)
    requires i <= |q|
    ensures multiset(q[..i] + [x] + q[i..]) == multiset(q) + multiset{x}
  {
    assert q == q[..i] + q[i..];
  }

  /** Overwriting place i of a queue of which the places after i may be in any order. */
  lemma PutAt(q: seq<Item>, i: nat, tail: seq<Item>, b: Item)
    requires i < |q|
    ensures (q[..i + 1] + tail)[i := b] == q[..i] + ([b] + tail)
  {
  }

  ghost function Rotated(tail: seq<Item>): (r: seq<Item>)
    ensures multiset(r) == multiset(tail)
  {
    if tail == [] then []
    else
      assert tail == tail[..|tail| - 1] + [tail[|tail| - 1]];
      [tail[|tail| - 1]] + tail[..|tail| - 1]
  }

  /** Swap-removal of place i. */
  lemma DropAt(q: seq<Item>, i: nat, tail: seq<Item>, b: Item)
    requires i < |q|
    ensures var t := q[..i] + ([b] + tail);
            t[i := t[|t| - 1]][..|t| - 1] == q[..i] + Rotated(tail)
  {
    var t := q[..i] + ([b] + tail);
    var r := t[i := t[|t| - 1]][..|t| - 1];
    assert t[|t| - 1] == if tail == [] then b else tail[|tail| - 1];
  }

  lemma ConsMultiset(b: Item, s: seq<Item>, t: seq<Item>)
    requires multiset(s) == multiset(t)
    ensures multiset([b] + s) == multiset([b] + t)
  {
  }

  datatype Op = Queue(node: Name, msg: Blob) | Get(c: Call) | ResetAll | PruneTo(maxRetain: nat)

  class TransmitLimitedQueue {
    var bcQueue: seq<Item>
    var finished: seq<nat>
    var issued: nat
    ghost var log: seq<nat>      // the ids sent so far

    /** At most one message per node, most transmitted first, and every broadcast that left the
        queue finished exactly once while none still queued has.  The counts are those of the log. */
    ghost predicate Valid()
      reads this
    {
      Inv(bcQueue, finished, issued) && Logged(bcQueue, issued, log)
    }

    /** No broadcast was sent more often than the limit allows. */
    ghost predicate Within(limit: int)
      reads this
    {
      Limited(bcQueue, finished, log, limit)
    }

    constructor ()
      ensures Valid() && bcQueue == [] && finished == [] && issued == 0 && log == [] && forall limit :: Within(limit)
    {
      bcQueue, finished, issued, log := [], [], 0, [];
    }

    method QueueBroadcast(node: Name, msg: Blob)
      requires Valid()
      modifies this
      ensures Valid()
      ensures bcQueue == Without(old(bcQueue), node) + [Item(0, old(issued), node, msg)]
      ensures finished == old(finished) + Replaced(old(bcQueue), node) && issued == old(issued) + 1 && log == old(log)
      ensures forall limit :: old(Within(limit)) ==> Within(limit)
    {
      QueuedInv(bcQueue, finished, issued, node, msg);
      QueuedLogged(bcQueue, finished, issued, log, node, msg);
      Invalidate(node);
      bcQueue := bcQueue + [Item(0, issued, node, msg)];
      issued := issued + 1;
    }

    /** The loop does not look again at the place from which it removed an item. */
    method Invalidate(node: Name)
      requires OnePerNode(bcQueue)
      modifies this`bcQueue, this`finished
      ensures bcQueue == Without(old(bcQueue), node) && finished == old(finished) + Replaced(old(bcQueue), node)
    {
      ghost var q := bcQueue;
      ghost var at: nat := |q|;
      var n, i := |bcQueue|, 0;
      while i < n
        invariant 0 <= i && n == |bcQueue| && at <= |q| && (at < |q| ==> q[at].node == node)
        invariant at == |q| ==> bcQueue == q && finished == old(finished) && forall k :: 0 <= k < i && k < |q| ==>
                    q[k].node != node
        invariant at < |q| ==> bcQueue == q[..at] + q[at + 1..] && finished == old(finished) + [q[at].id]
      {
        if bcQueue[i].node == node {
          at := i;
          finished := finished + [bcQueue[i].id];
          bcQueue := bcQueue[..i] + bcQueue[i + 1..];
          n := n - 1;
        }
        i := i + 1;
      }
      WithoutIs(q, node, at);
      ReplacedIs(q, node, at);
    }

    /** The messages to send, newest first as far as they fit; each is counted, and one that has
        reached the transmit limit leaves the queue. */
    method GetBroadcasts(c: Call) returns (toSend: seq<Blob>)
      requires Valid()
      modifies this`bcQueue, this`finished, this`log
      ensures Valid() && toSend == Sweep(c, old(bcQueue)).sent && log == old(log) + SentIds(c, old(bcQueue))
      ensures finished == old(finished) + Sweep(c, old(bcQueue)).expired
      ensures multiset(bcQueue) == multiset(Sweep(c, old(bcQueue)).kept) && (toSend == [] ==> bcQueue == old(bcQueue))
      ensures forall id :: id in Sweep(c, old(bcQueue)).expired ==> multiset(log)[id] >= c.transmitLimit
      ensures old(Within(c.transmitLimit)) ==> Within(c.transmitLimit)
    {
      toSend := Select(c);
      if |toSend| > 0 {
        bcQueue := Sort(bcQueue);
      } else {
        NothingSent(c, old(bcQueue));
      }
      SentInv(c, old(bcQueue), old(finished), issued, bcQueue);
      SentInLog(c, old(bcQueue), old(finished), issued, log, bcQueue);
      if old(Within(c.transmitLimit)) {
        SentLimited(c, old(bcQueue), old(finished), issued, log, bcQueue);
      }
      forall id | id in Sweep(c, old(bcQueue)).expired
        ensures multiset(log + SentIds(c, old(bcQueue)))[id] >= c.transmitLimit
      {
        ExpiredIsSpent(c, old(bcQueue), issued, log, id);
      }
      log := log + SentIds(c, old(bcQueue));
    }

    method Select(c: Call) returns (toSend: seq<Blob>)
      modifies this`bcQueue, this`finished
      ensures var s := Sweep(c, old(bcQueue));
              toSend == s.sent && finished == old(finished) + s.expired && multiset(bcQueue) == multiset(s.kept)
      ensures toSend == [] ==> bcQueue == old(bcQueue)
    {
      ghost var q := bcQueue;
      var bytesUsed := 0;
      toSend := [];
      var i: nat := |bcQueue|;
      ghost var s, tail := Sweep(c, []), [];
      while i > 0
        invariant i <= |q| && bcQueue == q[..i] + tail && s == Sweep(c, q[i..]) && multiset(tail) == multiset(s.kept)
        invariant bytesUsed == s.used && toSend == s.sent && finished == old(finished) + s.expired
        invariant toSend == [] ==> bcQueue == q
      {
        i := i - 1;
        assert q[i..][1..] == q[i + 1..];
        bytesUsed, toSend, tail := Visit(c, i, bytesUsed, toSend, q, s, tail);
        s := Take(c, q[i], s);
      }
      assert bcQueue == tail && q[0..] == q;
    }

    /** One item of the sweep; tail is the queue after place i, in any order. */
    method Visit(c: Call, i: nat, used: nat, sent: seq<Blob>, ghost q: seq<Item>, ghost s: Swept, ghost tail: seq<Item>)
      returns (used': nat, sent': seq<Blob>, ghost tail': seq<Item>)
      requires i < |q| && bcQueue == q[..i + 1] + tail && multiset(tail) == multiset(s.kept) && used == s.used
               && sent == s.sent
      modifies this`bcQueue, this`finished
      ensures var t := Take(c, q[i], s);
              && bcQueue == q[..i] + tail' && multiset(tail') == multiset(t.kept) && used' == t.used && sent' == t.sent
              && (finished == if Fits(c, q[i], s) && Expires(c, q[i]) then old(finished) + [q[i].id] else old(finished))
      ensures !Fits(c, q[i], s) ==> bcQueue == old(bcQueue)
    {
      var b := bcQueue[i];
      if used + c.overhead + |b.msg| > c.limit {
        PutAt(q, i, tail, b);
        ConsMultiset(b, tail, s.kept);
        return used, sent, [b] + tail;
      }
      used' := used + c.overhead + |b.msg|;
      sent' := sent + [b.msg];
      tail' := Recount(i, b.(transmits := b.transmits + 1), c.transmitLimit, q, s.kept, tail);
    }

    /** Store the new count of the item at place i, or take the item out if it was sent often
        enough. */
    method Recount(i: nat, b: Item, transmitLimit: int, ghost q: seq<Item>, ghost kept: seq<Item>,
                   ghost tail: seq<Item>)
      returns (ghost tail': seq<Item>)
      requires i < |q| && bcQueue == q[..i + 1] + tail && multiset(tail) == multiset(kept)
      modifies this`bcQueue, this`finished
      ensures bcQueue == q[..i] + tail'
      ensures multiset(tail') == multiset(if b.transmits >= transmitLimit then kept else [b] + kept)
      ensures finished == if b.transmits >= transmitLimit then old(finished) + [b.id] else old(finished)
    {
      PutAt(q, i, tail, b);
      bcQueue := bcQueue[i := b];
      if b.transmits >= transmitLimit {
        finished := finished + [b.id];
        DropAt(q, i, tail, b);
        bcQueue := bcQueue[i := bcQueue[|bcQueue| - 1]][..|bcQueue| - 1];
        tail' := Rotated(tail);
      } else {
        ConsMultiset(b, tail, kept);
        tail' := [b] + tail;
      }
    }

    method Reset()
      requires Valid()
      modifies this`bcQueue, this`finished
      ensures Valid() && bcQueue == [] && finished == old(finished) + IdsOf(old(bcQueue))
      ensures forall limit :: old(Within(limit)) ==> Within(limit)
    {
      DroppedInv(bcQueue, finished, issued, |bcQueue|);
      FinishFirst(|bcQueue|);
      assert bcQueue[..|bcQueue|] == bcQueue;
      bcQueue := [];
    }

    method FinishFirst(k: nat)
      requires k <= |bcQueue|
      modifies this`finished
      ensures finished == old(finished) + IdsOf(bcQueue[..k])
    {
      for i := 0 to k
        invariant finished == old(finished) + IdsOf(bcQueue[..i])
      {
        assert bcQueue[..i + 1][..i] == bcQueue[..i];
        finished := finished + [bcQueue[i].id];
      }
    }

    /** Drops all but the last maxRetain messages, which are those sent least often. */
    method Prune(maxRetain: nat)
      requires Valid()
      modifies this`bcQueue, this`finished
      ensures Valid()
      ensures var k := if |old(bcQueue)| < maxRetain then 0 else |old(bcQueue)| - maxRetain;
              bcQueue == old(bcQueue)[k..] && finished == old(finished) + IdsOf(old(bcQueue)[..k])
      ensures forall limit :: old(Within(limit)) ==> Within(limit)
    {
      var n := |bcQueue|;
      if n < maxRetain { return; }
      DroppedInv(bcQueue, finished, issued, n - maxRetain);
      FinishFirst(n - maxRetain);
      bcQueue := bcQueue[n - maxRetain..];
    }

    /** Over every run of the operations the invariant holds, and what is finished stays so.  If all
        calls have one limit, no broadcast is sent more often than it says, and none that was sent
        so often is still queued. */
    method Perform(ops: seq<Op>, ghost limit: int)
      requires Valid()
      modifies this
      ensures Valid() && issued >= old(issued) && old(finished) <= finished && old(log) <= log
      ensures old(Within(limit)) && SameLimit(ops, limit) ==> Within(limit)
    {
      for i := 0 to |ops|
        invariant Valid() && issued >= old(issued) && old(finished) <= finished && old(log) <= log
        invariant old(Within(limit)) && SameLimit(ops, limit) ==> Within(limit)
      {
        match ops[i]
        case Queue(node, msg) => QueueBroadcast(node, msg);
        case Get(c) => var _ := GetBroadcasts(c);
        case ResetAll => Reset();
        case PruneTo(maxRetain) => Prune(maxRetain);
      }
    }
  }

  ghost predicate SameLimit(ops: seq<Op>, limit: int) {
    forall i :: 0 <= i < |ops| && ops[i].Get? ==> ops[i].c.transmitLimit == limit
  }
}
