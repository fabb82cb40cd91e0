/**
  The bytes and the budgets of module Framing, written out: where each byte of a compound message
  stands, what any buffer at all is cut into, what gossip puts into a packet and how long it is.
 */
module FramingLaws {
  import opened Bytes
  import opened Options
  import opened BroadcastQueue
  import opened Framing

  // ---------- compound messages ----------

  /** The bytes of the first n messages. */
  ghost function SumTo(lens: seq<nat>, n: nat): nat
    requires n <= |lens|
  {
    if n == 0 then 0 else SumTo(lens, n - 1) + lens[n - 1]
  }

  ghost function Sizes(msgs: seq<Blob>): (r: seq<nat>)
    ensures |r| == |msgs| && forall i :: 0 <= i < |r| ==> r[i] == |msgs[i]|
  {
    seq(|msgs|, i requires 0 <= i < |msgs| => |msgs[i]|)
  }

  lemma {:induction false} SumSame(a: seq<nat>, b: seq<nat>, n: nat)
    requires n <= |a| && n <= |b| && forall i :: 0 <= i < n ==> a[i] == b[i]
    ensures SumTo(a, n) == SumTo(b, n)
  {
    if n == 0 {
    } else {
      SumSame(a, b, n - 1);
    }
  }

  lemma {:induction false} TableBytes(msgs: seq<Blob>, i: nat)
    requires i < |msgs|
    ensures Table(msgs)[2 * i] == |msgs[i]| / 256 % 256 && Table(msgs)[2 * i + 1] == |msgs[i]| % 256
  {
    if i == |msgs| - 1 {
    } else {
      TableBytes(msgs[..|msgs| - 1], i);
    }
  }

  lemma {:induction false} PayloadAt(msgs: seq<Blob>, i: nat)
    requires i < |msgs|
    ensures var b := SumTo(Sizes(msgs), i);
            && |Payload(msgs)| == SumTo(Sizes(msgs), |msgs|) && b + |msgs[i]| <= |Payload(msgs)|
            && Payload(msgs)[b..b + |msgs[i]|] == msgs[i]
  {
    var front := msgs[..|msgs| - 1];
    SumSame(Sizes(msgs), Sizes(front), |front|);
    if front == [] {
      assert Payload(front) == [];
    } else if i == |msgs| - 1 {
      PayloadAt(front, 0);
    } else {
      PayloadAt(front, i);
      SumSame(Sizes(msgs), Sizes(front), i);
      assert Payload(msgs) == Payload(front) + msgs[|msgs| - 1];
    }
  }

  /** Type 7, the count, the lengths with the high byte first, then the messages one after the
      other. */
  lemma CompoundLayout(msgs: seq<Blob>, i: nat)
    requires i < |msgs|
    ensures var b := Compound(msgs);
            var at := 2 + 2 * |msgs| + SumTo(Sizes(msgs), i);
            && |b| == 2 + 2 * |msgs| + SumTo(Sizes(msgs), |msgs|) && b[0] == 7 && b[1] == |msgs| % 256
            && b[2 + 2 * i] == |msgs[i]| / 256 % 256 && b[3 + 2 * i] == |msgs[i]| % 256
            && at + |msgs[i]| <= |b| && b[at..at + |msgs[i]|] == msgs[i]
  {
    TableBytes(msgs, i);
    PayloadAt(msgs, i);
    var b, t, p := Compound(msgs), Table(msgs), Payload(msgs);
    assert b[2 + 2 * i] == t[2 * i] && b[3 + 2 * i] == t[2 * i + 1];
    assert b[2 + |t|..] == p;
  }

  /** Part i stands where the ones before it end, and is as long as its length says. */
  ghost predicate PartAt(lens: seq<nat>, buf: Blob, part: Blob, i: nat) {
    && i < |lens| && SumTo(lens, i) + lens[i] <= |buf|
    && part == buf[SumTo(lens, i)..SumTo(lens, i) + lens[i]]
  }

  /** The parts that a payload is cut into, and no further one that would still fit. */
  ghost predicate CutUp(lens: seq<nat>, buf: Blob, parts: seq<Blob>) {
    && |parts| <= |lens| && (forall i :: 0 <= i < |parts| ==> PartAt(lens, buf, parts[i], i))
    && (|parts| < |lens| ==> SumTo(lens, |parts|) + lens[|parts|] > |buf|)
  }

  lemma {:induction false} SumCons(lens: seq<nat>, n: nat)
    requires 0 < n <= |lens|
    ensures SumTo(lens, n) == lens[0] + SumTo(lens[1..], n - 1)
  {
    if n == 1 {
      assert SumTo(lens, 0) == 0 && SumTo(lens[1..], 0) == 0;
    } else {
      SumCons(lens, n - 1);
    }
  }

  lemma NextPart(lens: seq<nat>, buf: Blob, part: Blob, i: nat)
    requires lens != [] && lens[0] <= |buf| && PartAt(lens[1..], buf[lens[0]..], part, i)
    ensures PartAt(lens, buf, part, i + 1)
  {
    SumCons(lens, i + 1);
    var rest, at := buf[lens[0]..], SumTo(lens[1..], i);
    assert lens[1..][i] == lens[i + 1];
    assert rest[at..at + lens[i + 1]] == buf[lens[0] + at..lens[0] + at + lens[i + 1]];
  }

  lemma NoNextPart(lens: seq<nat>, buf: Blob, n: nat)
    requires lens != [] && lens[0] <= |buf| && n < |lens| - 1
    requires SumTo(lens[1..], n) + lens[1..][n] > |buf[lens[0]..]|
    ensures SumTo(lens, n + 1) + lens[n + 1] > |buf|
  {
    SumCons(lens, n + 1);
  }

  lemma CutMore(lens: seq<nat>, buf: Blob, tail: seq<Blob>)
    requires lens != [] && lens[0] <= |buf| && CutUp(lens[1..], buf[lens[0]..], tail)
    ensures CutUp(lens, buf, [buf[..lens[0]]] + tail)
  {
    var parts := [buf[..lens[0]]] + tail;
    assert PartAt(lens, buf, parts[0], 0);
    hide PartAt, SumTo;
    forall i | 0 <= i < |parts| ensures PartAt(lens, buf, parts[i], i) {
      if i > 0 { NextPart(lens, buf, tail[i - 1], i - 1); }
    }
    if |parts| < |lens| { NoNextPart(lens, buf, |tail|); }
  }

  lemma {:induction false} CutIs(lens: seq<nat>, buf: Blob)
    ensures CutUp(lens, buf, Cut(lens, buf))
    decreases |lens|
  {
    if lens == [] || |buf| < lens[0] {
      assert Cut(lens, buf) == [];
    } else {
      hide CutUp;
      CutIs(lens[1..], buf[lens[0]..]);
      CutMore(lens, buf, Cut(lens[1..], buf[lens[0]..]));
    }
  }

  ghost function Big(hi: nat, lo: nat): nat { 256 * hi + lo }

  /** Any buffer with up to 127 parts: the lengths are read from the table, high byte first, and
      the rest is cut up by them. */
  lemma DecodeIs(buf: Blob, lens: seq<nat>)
    requires |buf| >= 1 && buf[0] <= 127 && |buf| >= 1 + 2 * |lens| && |lens| == buf[0]
    requires forall i :: 0 <= i < |lens| ==> lens[i] == Big(buf[1 + 2 * i], buf[2 + 2 * i])
    ensures Decode(buf).Split? && Decode(buf).trunc + |Decode(buf).parts| == |lens|
    ensures CutUp(lens, buf[1 + 2 * |lens|..], Decode(buf).parts)
  {
    var n, rest := |lens|, buf[1..];
    assert Lengths(rest, n) == lens by {
      forall i | 0 <= i < n ensures LengthAt(rest, i) == lens[i] { }
    }
    assert rest[2 * n..] == buf[1 + 2 * n..];
    CutIs(lens, rest[2 * n..]);
  }

  // ---------- what goes into a packet ----------

  /** The messages of the queue come first, all of them.  The delegate is asked when more than its
      own overhead is left, with what is left, and each of its messages follows behind a byte 8. */
  lemma OutgoingIs(c: Call, queue: seq<Item>, delegate: Option<(nat, nat) -> seq<Blob>>)
    ensures var sent, out := Sweep(c, queue).sent, Outgoing(c, queue, delegate);
            var avail := c.limit - Cost(sent, c.overhead);
            && |sent| <= |out| && out[..|sent|] == sent
            && (delegate.None? || avail <= c.overhead + 1 ==> out == sent)
            && (delegate.Some? && avail > c.overhead + 1 ==>
                  var user := delegate.value(c.overhead + 1, avail);
                  |out| == |sent| + |user| && forall i :: 0 <= i < |user| ==> out[|sent| + i] == [8] + user[i])
  {
    var sent := Sweep(c, queue).sent;
    var avail := c.limit - Cost(sent, c.overhead);
    if delegate.Some? && avail > c.overhead + 1 {
      var user := delegate.value(c.overhead + 1, avail);
      forall i | 0 <= i < |user| ensures |Framed(user)| == |user| && Framed(user)[i] == [8] + user[i] {
        FramedAt(user, i);
      }
      assert user == [] ==> Framed(user) == [];
    }
  }

  /** What messages cost: their bytes, and the overhead for each. */
  lemma {:induction false} CostIs(msgs: seq<Blob>, overhead: nat)
    ensures Cost(msgs, overhead) == SumTo(Sizes(msgs), |msgs|) + |msgs| * overhead
  {
    if msgs == [] {
    } else {
      var front := msgs[..|msgs| - 1];
      CostIs(front, overhead);
      SumSame(Sizes(msgs), Sizes(front), |front|);
      assert |msgs| * overhead == (|msgs| - 1) * overhead + overhead;
    }
  }

  /** The space for messages in a gossip packet: 1400 bytes less the header of a compound message
      and what encryption may add. */
  lemma GossipBudget(encryption: Option<Version>, transmitLimit: int)
    ensures GossipCall(encryption, transmitLimit) ==
              Call(2, match encryption case None => 1398 case Some(V0) => 1353 case Some(V1) => 1369, transmitLimit)
  {
  }

  /** Encryption adds a version byte, twelve bytes of nonce and sixteen of tag; version 0 also pads
      to the next multiple of sixteen, by one byte at least. */
  lemma EncryptedIs(n: nat)
    ensures EncryptedLength(V1, n) == n + 29 && EncryptOverhead(V1) == 29 && EncryptOverhead(V0) == 45
    ensures EncryptedLength(V0, n) == 29 + 16 * (n / 16 + 1) <= n + 45
  {
  }
}
