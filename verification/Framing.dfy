/**
  How messages become packets: compound messages and their decoding, padding, and the byte
  budget of a gossip packet.
 */
module Framing {
  import Arith
  import opened Bytes
  import opened Options
  import opened BroadcastQueue

  const COMPOUND_MSG: Byte := 7
  const USER_MSG: Byte := 8

  // ---------- compound messages ----------

  function U16(n: nat): (r: Blob)
    ensures |r| == 2
  {
    [n / 256 % 256, n % 256]
  }

  function Table(msgs: seq<Blob>): (r: Blob)
    ensures |r| == 2 * |msgs|
  {
    if msgs == [] then [] else Table(msgs[..|msgs| - 1]) + U16(|msgs[|msgs| - 1]|)
  }

  function Payload(msgs: seq<Blob>): Blob {
    if msgs == [] then [] else Payload(msgs[..|msgs| - 1]) + msgs[|msgs| - 1]
  }

  /** Type byte, count byte, the lengths in 16 bits each, then the messages. */
  function Compound(msgs: seq<Blob>): Blob { [COMPOUND_MSG] + ([|msgs| % 256] + (Table(msgs) + Payload(msgs))) }

  method MakeCompoundMessage(msgs: seq<Blob>) returns (buf: Blob)
    ensures buf == Compound(msgs) && |buf| == 2 + Cost(msgs, 2)
  {
    buf := [COMPOUND_MSG, |msgs| % 256];
    buf := AddLengths(buf, msgs);
    buf := AddMessages(buf, msgs);
    assert buf == Compound(msgs);
    CompoundCost(msgs);
  }

  method AddLengths(head: Blob, msgs: seq<Blob>) returns (buf: Blob)
    ensures buf == head + Table(msgs)
  {
    buf := head;
    for i := 0 to |msgs|
      invariant buf == head + Table(msgs[..i])
    {
      assert msgs[..i + 1][..i] == msgs[..i];
      buf := buf + U16(|msgs[i]|);
    }
    assert msgs[..|msgs|] == msgs;
  }

  method AddMessages(head: Blob, msgs: seq<Blob>) returns (buf: Blob)
    ensures buf == head + Payload(msgs)
  {
    buf := head;
    for i := 0 to |msgs|
      invariant buf == head + Payload(msgs[..i])
    {
      assert msgs[..i + 1][..i] == msgs[..i];
      buf := buf + msgs[i];
    }
    assert msgs[..|msgs|] == msgs;
  }

  lemma {:induction false} CompoundCost(msgs: seq<Blob>)
    ensures 2 * |msgs| + |Payload(msgs)| == Cost(msgs, 2)
  {
    if msgs == [] {
    } else {
      CompoundCost(msgs[..|msgs| - 1]);
    }
  }

  /** MissingCount and TruncatedTable are errors; Overrun means that the length table was read
      past the end of the buffer, which the check misses from 128 parts on. */
  datatype Decoded = MissingCount | TruncatedTable | Overrun | Split(trunc: nat, parts: seq<Blob>)

  /** The length of part i according to the table at the start of buf. */
  function LengthAt(buf: Blob, i: nat): nat
    requires 2 * i + 2 <= |buf|
  {
    var hi: nat, lo: nat := buf[2 * i], buf[2 * i + 1];
    256 * hi + lo
  }

  function Lengths(buf: Blob, n: nat): (r: seq<nat>)
    requires 2 * n <= |buf|
    ensures |r| == n
  {
    seq(n, i requires 0 <= i < n => LengthAt(buf, i))
  }

  /** Cut buf into parts of the given lengths, as far as it goes. */
  function Cut(lens: seq<nat>, buf: Blob): (r: seq<Blob>)
    ensures |r| <= |lens|
  {
    if lens == [] || |buf| < lens[0] then [] else [buf[..lens[0]]] + Cut(lens[1..], buf[lens[0]..])
  }

  /** The number of bytes that the decoder skips for the table: 8-bit arithmetic. */
  function Skip(n: nat): (k: nat)
    ensures k <= 2 * n && (n < 128 ==> k == 2 * n) && (128 <= n < 256 ==> k == 2 * n - 256)
  {
    n * 2 % 256
  }

  function Decode(buf: Blob): Decoded {
    if |buf| < 1 then MissingCount else DecodeParts(buf[0], buf[1..])
  }

  function DecodeParts(n: nat, rest: Blob): Decoded {
    if |rest| < Skip(n) then TruncatedTable
    else if |rest| < 2 * n then Overrun
    else
      var parts := Cut(Lengths(rest, n), rest[Skip(n)..]);
      Split(n - |parts|, parts)
  }

  method DecodeCompoundMessage(buf: Blob) returns (r: Decoded)
    ensures r == Decode(buf)
    ensures r.Split? ==> r.trunc + |r.parts| == buf[0]
  {
    if |buf| < 1 { return MissingCount; }
    var numParts: nat := buf[0];
    var rest := buf[1..];
    if |rest| < numParts * 2 % 256 { return TruncatedTable; }
    if |rest| < 2 * numParts { return Overrun; }
    var lengths := ReadLengths(rest, numParts);
    var trunc, parts := SplitParts(lengths, rest[numParts * 2 % 256..]);
    r := Split(trunc, parts);
  }

  method ReadLengths(buf: Blob, n: nat) returns (lengths: seq<nat>)
    requires 2 * n <= |buf|
    ensures lengths == Lengths(buf, n)
  {
    lengths := [];
    for i := 0 to n
      invariant lengths == Lengths(buf, i)
    {
      lengths := lengths + [LengthAt(buf, i)];
    }
  }

  method SplitParts(lengths: seq<nat>, body: Blob) returns (trunc: nat, parts: seq<Blob>)
    ensures parts == Cut(lengths, body) && trunc + |parts| == |lengths|
  {
    var buf := body;
    parts := [];
    assert lengths[0..] == lengths;
    for idx := 0 to |lengths|
      invariant |parts| == idx && parts + Cut(lengths[idx..], buf) == Cut(lengths, body)
    {
      if |buf| < lengths[idx] { return |lengths| - idx, parts; }
      assert lengths[idx..][1..] == lengths[idx + 1..];
      parts := parts + [buf[..lengths[idx]]];
      buf := buf[lengths[idx]..];
    }
    trunc := 0;
  }

  lemma {:induction false} TableAt(msgs: seq<Blob>, i: nat)
    requires i < |msgs|
    ensures Table(msgs)[2 * i] == |msgs[i]| / 256 % 256 && Table(msgs)[2 * i + 1] == |msgs[i]| % 256
  {
    if i == |msgs| - 1 {
    } else {
      TableAt(msgs[..|msgs| - 1], i);
    }
  }

  lemma TableLengths(msgs: seq<Blob>, rest: Blob, n: nat)
    requires n <= |msgs|
    ensures forall i :: 0 <= i < n ==> Lengths(Table(msgs) + rest, n)[i] == |msgs[i]| % 65536
  {
    forall i | 0 <= i < n ensures Lengths(Table(msgs) + rest, n)[i] == |msgs[i]| % 65536 { TableLength(msgs, rest, i); }
  }

  lemma TableLength(msgs: seq<Blob>, rest: Blob, i: nat)
    requires i < |msgs|
    ensures LengthAt(Table(msgs) + rest, i) == |msgs[i]| % 65536
  {
    TableAt(msgs, i);
    var t := Table(msgs);
    assert (t + rest)[2 * i] == t[2 * i] && (t + rest)[2 * i + 1] == t[2 * i + 1];
    Word(|msgs[i]|);
  }

  lemma Word(n: nat)
    ensures 256 * (n / 256 % 256) + n % 256 == n % 65536
  {
  }

  lemma PayloadBack(front: seq<Blob>, last: Blob)
    ensures Payload(front + [last]) == Payload(front) + last
  {
    assert (front + [last])[..|front|] == front;
  }

  lemma {:induction false} PayloadCons(first: Blob, rest: seq<Blob>)
    ensures Payload([first] + rest) == first + Payload(rest)
  {
    if rest == [] {
      assert [first] + rest == [] + [first];
      PayloadBack([], first);
    } else {
      var front, last := rest[..|rest| - 1], rest[|rest| - 1];
      assert [first] + rest == ([first] + front) + [last];
      PayloadCons(first, front);
      PayloadBack([first] + front, last);
    }
  }

  lemma PayloadFront(msgs: seq<Blob>)
    requires msgs != []
    ensures Payload(msgs) == msgs[0] + Payload(msgs[1..])
  {
    assert msgs == [msgs[0]] + msgs[1..];
    PayloadCons(msgs[0], msgs[1..]);
  }

  ghost predicate Fitting(lens: seq<nat>, msgs: seq<Blob>) {
    |lens| == |msgs| && forall i :: 0 <= i < |msgs| ==> lens[i] == |msgs[i]|
  }

  /** Cutting recovers messages exactly when the lengths are theirs and the buffer starts with them. */
  lemma {:induction false} CutIff(lens: seq<nat>, buf: Blob, msgs: seq<Blob>)
    requires |lens| == |msgs|
    ensures Cut(lens, buf) == msgs <==> Fitting(lens, msgs) && Payload(msgs) <= buf
    decreases |lens|
  {
    if lens == [] {
    } else {
      PayloadFront(msgs);
      if |buf| >= lens[0] {
        CutIff(lens[1..], buf[lens[0]..], msgs[1..]);
        CutStep(lens, buf, msgs);
        if lens[0] == |msgs[0]| { PrefixStep(msgs[0], Payload(msgs[1..]), buf); }
        LengthsStep(lens, msgs);
      } else if lens[0] == |msgs[0]| {
        assert !(msgs[0] + Payload(msgs[1..]) <= buf);
      }
    }
  }

  lemma CutStep(lens: seq<nat>, buf: Blob, msgs: seq<Blob>)
    requires |lens| == |msgs| > 0 && |buf| >= lens[0]
    ensures Cut(lens, buf) == msgs <==> buf[..lens[0]] == msgs[0] && Cut(lens[1..], buf[lens[0]..]) == msgs[1..]
  {
    ConsEqual(buf[..lens[0]], Cut(lens[1..], buf[lens[0]..]), msgs);
  }

  lemma ConsEqual(h: Blob, t: seq<Blob>, msgs: seq<Blob>)
    requires msgs != []
    ensures [h] + t == msgs <==> h == msgs[0] && t == msgs[1..]
  {
    assert ([h] + t)[1..] == t;
    assert msgs == [msgs[0]] + msgs[1..];
  }

  lemma LengthsStep(lens: seq<nat>, msgs: seq<Blob>)
    requires |lens| == |msgs| > 0
    ensures Fitting(lens, msgs) <==> lens[0] == |msgs[0]| && Fitting(lens[1..], msgs[1..])
  {
    if lens[0] == |msgs[0]| && Fitting(lens[1..], msgs[1..]) {
      forall i | 0 <= i < |msgs| ensures lens[i] == |msgs[i]| {
        if i > 0 { assert lens[1..][i - 1] == |msgs[1..][i - 1]|; }
      }
    }
  }

  lemma PrefixStep(a: Blob, b: Blob, buf: Blob)
    requires |a| <= |buf|
    ensures a + b <= buf <==> buf[..|a|] == a && b <= buf[|a|..]
  {
    if a + b <= buf {
      assert buf[..|a|] == (a + b)[..|a|] == a;
      assert b == (a + b)[|a|..];
    }
    if buf[..|a|] == a && b <= buf[|a|..] { assert buf == a + buf[|a|..]; }
  }

  // ---------- decoding undoes encoding ----------

  ghost predicate Short(msgs: seq<Blob>) { forall i :: 0 <= i < |msgs| ==> |msgs[i]| < 65536 }

  /** From 128 messages on the decoder takes the last 256 bytes of the table for payload, so the
      payload must look the same when shifted by them. */
  ghost predicate Framable(msgs: seq<Blob>) {
    && |msgs| < 256 && Short(msgs)
    && (|msgs| <= 127 || Payload(msgs) <= Table(msgs)[2 * |msgs| - 256..] + Payload(msgs))
  }

  lemma DecodeCons(n: Byte, rest: Blob)
    ensures Decode([n] + rest) == DecodeParts(n, rest)
  {
    assert ([n] + rest)[1..] == rest;
  }

  lemma Untyped(msgs: seq<Blob>)
    ensures Compound(msgs)[1..] == [|msgs| % 256] + (Table(msgs) + Payload(msgs))
  {
  }

  /** decodeCompoundMessage undoes makeCompoundMessage exactly for framable messages. */
  lemma RoundTripIff(msgs: seq<Blob>)
    ensures Decode(Compound(msgs)[1..]) == Split(0, msgs) <==> Framable(msgs)
  {
    if |msgs| < 256 {
      DecodeCompound(msgs, |msgs|);
      PartsIff(msgs);
    } else {
      DecodeCompound(msgs, |msgs| % 256);
      FewParts(|msgs| % 256, Table(msgs) + Payload(msgs));
    }
  }

  lemma DecodeCompound(msgs: seq<Blob>, n: nat)
    requires n == |msgs| % 256
    ensures Decode(Compound(msgs)[1..]) == DecodeParts(n, Table(msgs) + Payload(msgs))
  {
    Untyped(msgs);
    DecodeCons(n, Table(msgs) + Payload(msgs));
  }

  lemma FewParts(n: nat, rest: Blob)
    ensures DecodeParts(n, rest).Split? ==> |DecodeParts(n, rest).parts| <= n
  {
  }

  lemma PartsIff(msgs: seq<Blob>)
    requires |msgs| < 256
    ensures DecodeParts(|msgs|, Table(msgs) + Payload(msgs)) == Split(0, msgs) <==> Framable(msgs)
  {
    var t, p := Table(msgs), Payload(msgs);
    var lens := PartsOf(msgs, p);
    CutIff(lens, t[Skip(|msgs|)..] + p, msgs);
    assert |msgs| <= 127 ==> t[Skip(|msgs|)..] + p == p;
  }

  /** The decoder cuts what follows the bytes that it skips, by the lengths in the table. */
  lemma PartsOf(msgs: seq<Blob>, p: Blob) returns (lens: seq<nat>)
    requires |msgs| < 256
    ensures |lens| == |msgs| && (Fitting(lens, msgs) <==> Short(msgs))
    ensures var parts := Cut(lens, Table(msgs)[Skip(|msgs|)..] + p);
            DecodeParts(|msgs|, Table(msgs) + p) == Split(|msgs| - |parts|, parts)
  {
    lens := Lengths(Table(msgs) + p, |msgs|);
    TableLengths(msgs, p, |msgs|);
    LengthsShort(lens, msgs);
    AfterTable(Table(msgs), p, Skip(|msgs|));
  }

  lemma AfterTable(t: Blob, p: Blob, k: nat)
    requires k <= |t|
    ensures (t + p)[k..] == t[k..] + p
  {
  }

  lemma LengthsShort(lens: seq<nat>, msgs: seq<Blob>)
    requires |lens| == |msgs| && forall i :: 0 <= i < |msgs| ==> lens[i] == |msgs[i]| % 65536
    ensures Fitting(lens, msgs) <==> Short(msgs)
  {
    if Fitting(lens, msgs) {
      forall i | 0 <= i < |msgs| ensures |msgs[i]| < 65536 { assert lens[i] == |msgs[i]| % 65536; }
    }
  }

  /** Up to 127 messages, each shorter than 65536 bytes, always survive. */
  lemma RoundTrip(msgs: seq<Blob>)
    requires |msgs| <= 127 && Short(msgs)
    ensures Decode(Compound(msgs)[1..]) == Split(0, msgs)
  {
    RoundTripIff(msgs);
  }

  /** From 128 messages on the first byte after the skipped ones belongs to the length table. */
  lemma TooManyMessages(msgs: seq<Blob>)
    requires 128 <= |msgs| < 256 && msgs[0] != [] && msgs[0][0] != |msgs[|msgs| - 128]| / 256 % 256
    ensures Decode(Compound(msgs)[1..]) != Split(0, msgs)
  {
    var n := |msgs|;
    var late := Table(msgs)[2 * n - 256..];
    TableAt(msgs, n - 128);
    assert late[0] == Table(msgs)[2 * (n - 128)];
    PayloadFront(msgs);
    DifferentStart(Payload(msgs), late + Payload(msgs));
    RoundTripIff(msgs);
  }

  lemma DifferentStart(a: Blob, b: Blob)
    requires a != [] && b != [] && a[0] != b[0]
    ensures !(a <= b)
  {
  }

  /** Cutting a truncated payload gives as many whole messages as it still holds. */
  lemma {:induction false} CutTruncated(lens: seq<nat>, msgs: seq<Blob>, m: nat)
    requires Fitting(lens, msgs) && m <= |Payload(msgs)|
    ensures var r := Cut(lens, Payload(msgs)[..m]);
            |r| <= |msgs| && r == msgs[..|r|] && (|r| < |msgs| ==> m < |Payload(msgs[..|r| + 1])|)
    decreases |lens|
  {
    if lens == [] {
    } else {
      var buf := Payload(msgs)[..m];
      PayloadFront(msgs);
      LengthsStep(lens, msgs);
      if m >= lens[0] {
        var k := m - lens[0];
        assert buf[..lens[0]] == msgs[0] && buf[lens[0]..] == Payload(msgs[1..])[..k];
        CutTruncated(lens[1..], msgs[1..], k);
        var t := Cut(lens[1..], buf[lens[0]..]);
        assert msgs[..|t| + 1] == [msgs[0]] + msgs[1..][..|t|];
        if |t| + 1 < |msgs| {
          PayloadFront(msgs[..|t| + 2]);
          assert msgs[..|t| + 2][1..] == msgs[1..][..|t| + 1];
        }
      } else {
        PayloadFront(msgs[..1]);
      }
    }
  }

  /** Decoding the first k bytes of a compound message, for every k. */
  lemma Truncated(msgs: seq<Blob>, k: nat)
    requires |msgs| <= 127 && Short(msgs) && k < |Compound(msgs)|
    ensures var d := Decode(Compound(msgs)[1..][..k]);
            && (d.MissingCount? <==> k == 0)
            && (d.TruncatedTable? <==> 0 < k < 1 + 2 * |msgs|)
            && (d.Split? <==> k >= 1 + 2 * |msgs|)
            && (d.Split? ==> d.trunc + |d.parts| == |msgs| && d.parts == msgs[..|d.parts|]
                             && (d.trunc > 0 ==> k - 1 - 2 * |msgs| < |Payload(msgs[..|d.parts| + 1])|))
  {
    if k > 0 {
      DecodeTruncated(msgs, k - 1);
      if k >= 1 + 2 * |msgs| { TruncatedParts(msgs, k - 1 - 2 * |msgs|); }
    }
  }

  lemma ConsTake(n: Byte, body: Blob, k: nat)
    requires k <= |body|
    ensures ([n] + body)[..k + 1] == [n] + body[..k]
  {
  }

  lemma DecodeTruncated(msgs: seq<Blob>, k: nat)
    requires |msgs| <= 127 && k <= |Table(msgs)| + |Payload(msgs)|
    ensures Decode(Compound(msgs)[1..][..k + 1]) == DecodeParts(|msgs|, (Table(msgs) + Payload(msgs))[..k])
  {
    Untyped(msgs);
    DecodeTaken(Compound(msgs)[1..], |msgs|, Table(msgs) + Payload(msgs), k);
  }

  lemma DecodeTaken(buf: Blob, n: Byte, body: Blob, k: nat)
    requires buf == [n] + body && k <= |body|
    ensures Decode(buf[..k + 1]) == DecodeParts(n, body[..k])
  {
    ConsTake(n, body, k);
    DecodeCons(n, body[..k]);
  }

  lemma TruncatedParts(msgs: seq<Blob>, m: nat)
    requires |msgs| <= 127 && Short(msgs) && m <= |Payload(msgs)|
    ensures var d := DecodeParts(|msgs|, (Table(msgs) + Payload(msgs))[..2 * |msgs| + m]);
            && d.Split? && d.trunc + |d.parts| == |msgs| && d.parts == msgs[..|d.parts|]
            && (d.trunc > 0 ==> m < |Payload(msgs[..|d.parts| + 1])|)
  {
    var n, p := |msgs|, Payload(msgs)[..m];
    assert (Table(msgs) + Payload(msgs))[..2 * n + m] == Table(msgs) + p;
    var lens := PartsOf(msgs, p);
    assert Table(msgs)[Skip(n)..] + p == p;
    CutTruncated(lens, msgs, m);
  }

  // ---------- padding ----------

  /** PKCS7: pad the bytes after the first `ignore` ones to a multiple of the block size. */
  method Pkcs7Encode(buf: Blob, ignore: nat, blockSize: nat) returns (r: Blob)
    requires ignore <= |buf| && 0 < blockSize < 256
    ensures 1 <= |r| - |buf| <= blockSize && r == buf + seq(|r| - |buf|, _ => |r| - |buf|)
    ensures (|r| - ignore) % blockSize == 0
  {
    var n := |buf| - ignore;
    var more := blockSize - n % blockSize;
    r := buf;
    for i := 0 to more
      invariant r == buf + seq(i, _ => more)
    {
      r := r + [more];
    }
    PadsToBlock(n, blockSize);
  }

  lemma PadsToBlock(n: nat, blockSize: nat)
    requires blockSize > 0
    ensures (n + blockSize - n % blockSize) % blockSize == 0
  {
    var q := n / blockSize + 1;
    assert n + blockSize - n % blockSize == q * blockSize;
    Arith.ModUnique(n + blockSize - n % blockSize, blockSize, q, 0);
  }

  /** Drops as many bytes as the last byte says.  An empty buffer, or a count beyond the start
      of the buffer, stops the program. */
  function Pkcs7Decode(buf: Blob): Option<Blob> {
    if |buf| == 0 || buf[|buf| - 1] > |buf| then None else Some(buf[..|buf| - buf[|buf| - 1]])
  }

  /** Decoding undoes the padding of any buffer. */
  lemma Unpad(buf: Blob, padded: Blob)
    requires |padded| > |buf| && |padded| - |buf| < 256 && padded == buf + seq(|padded| - |buf|, _ => |padded| - |buf|)
    ensures Pkcs7Decode(padded) == Some(buf)
  {
    assert padded[|padded| - 1] == |padded| - |buf|;
    assert padded[..|buf|] == buf;
  }

  // ---------- packet sizes ----------

  const UDP_SEND_BUF: nat := 1400
  const COMPOUND_HEADER_OVERHEAD: nat := 2
  const COMPOUND_OVERHEAD: nat := 2
  const USER_MSG_OVERHEAD: nat := 1
  const VERSION_SIZE: nat := 1
  const NONCE_SIZE: nat := 12
  const TAG_SIZE: nat := 16
  const BLOCK_SIZE: nat := 16

  /** The encryption versions; None stands for no encryption. */
  datatype Version = V0 | V1

  function EncryptOverhead(v: Version): nat { match v case V0 => 45 case V1 => 29 }

  function EncryptedLength(v: Version, inp: nat): nat {
    if v == V1 then VERSION_SIZE + NONCE_SIZE + inp + TAG_SIZE
    else VERSION_SIZE + NONCE_SIZE + inp + (BLOCK_SIZE - inp % BLOCK_SIZE) + TAG_SIZE
  }

  /** The bytes that encryptPayload appends to dst: version, nonce, then the sealed text, which
      GCM makes a tag longer than the plain text.  Version 0 seals the padded message.  The results
      are the bytes before the sealed text, what is sealed, and how many bytes there are in all. */
  method EncryptPayload(v: Version, dst: Blob, msg: Blob, nonce: Blob) returns (head: Blob, src: Blob, size: nat)
    requires |nonce| == NONCE_SIZE
    ensures size == |dst| + EncryptedLength(v, |msg|) <= |dst| + |msg| + EncryptOverhead(v)
    ensures head == dst + [if v == V0 then 0 else 1] + nonce && size == |head| + |src| + 16
    ensures if v == V0 then Pkcs7Decode(src) == Some(msg) else src == msg
  {
    var offset := |dst|;
    var buf: Blob := dst + [if v == V0 then 0 else 1] + nonce;
    head := buf;
    var afterNonce := |buf|;
    src := msg;
    if v == V0 {
      buf := buf + msg;
      buf := Pkcs7Encode(buf, offset + VERSION_SIZE + NONCE_SIZE, BLOCK_SIZE);
      src := buf[offset + VERSION_SIZE + NONCE_SIZE..];
      PaddedSize(|msg|, |src|);
      Unpad(msg, src);
    }
    size := afterNonce + |src| + TAG_SIZE;
  }

  lemma PaddedSize(n: nat, m: nat)
    requires 1 <= m - n <= 16 && m % 16 == 0
    ensures m == n + 16 - n % 16
  {
  }

  lemma {:induction false} CostConcat(a: seq<Blob>, b: seq<Blob>, overhead: nat)
    ensures Cost(a + b, overhead) == Cost(a, overhead) + Cost(b, overhead)
    decreases |b|
  {
    if b == [] {
      assert a + b == a;
    } else {
      var b' := b[..|b| - 1];
      assert (a + b)[..|a + b| - 1] == a + b';
      CostConcat(a, b', overhead);
    }
  }

  function Framed(msgs: seq<Blob>): seq<Blob> {
    if msgs == [] then [] else Framed(msgs[..|msgs| - 1]) + [[USER_MSG] + msgs[|msgs| - 1]]
  }

  lemma {:induction false} FramedCost(msgs: seq<Blob>, overhead: nat)
    ensures Cost(Framed(msgs), overhead) == Cost(msgs, overhead + 1)
  {
    if msgs == [] {
    } else {
      FramedCost(msgs[..|msgs| - 1], overhead);
      var f := Framed(msgs);
      assert f[..|f| - 1] == Framed(msgs[..|msgs| - 1]);
    }
  }

  /** The messages of the queue, then the framed ones of the user if there is room. */
  ghost function WithUser(sent: seq<Blob>, overhead: nat, limit: int, delegate: Option<(nat, nat) -> seq<Blob>>)
    : seq<Blob>
  {
    var avail := limit - Cost(sent, overhead);
    if delegate.Some? && avail > overhead + USER_MSG_OVERHEAD
    then sent + Framed(delegate.value(overhead + USER_MSG_OVERHEAD, avail))
    else sent
  }

  /** What getBroadcasts answers. */
  ghost function Outgoing(c: Call, queue: seq<Item>, delegate: Option<(nat, nat) -> seq<Blob>>): seq<Blob> {
    WithUser(Sweep(c, queue).sent, c.overhead, c.limit, delegate)
  }

  /** getBroadcasts: the queue's messages first, then the user's while there is room.  The
      delegate is a parameter that is asked with the overhead and space given. */
  method GetBroadcasts(q: TransmitLimitedQueue, transmitLimit: int, overhead: nat, limit: int,
                       delegate: Option<(nat, nat) -> seq<Blob>>)
    returns (toSend: seq<Blob>)
    requires q.Valid()
    requires delegate.Some? ==> forall o: nat, l: nat :: Cost(delegate.value(o, l), o) <= l
    modifies q`bcQueue, q`finished, q`log
    ensures q.Valid() && toSend == Outgoing(Call(overhead, limit, transmitLimit), old(q.bcQueue), delegate)
    ensures toSend != [] ==> Cost(toSend, overhead) <= limit
  {
    var c := Call(overhead, limit, transmitLimit);
    OutgoingFits(c, q.bcQueue, delegate);
    var sent := q.GetBroadcasts(c);
    toSend := AddUserMessages(sent, overhead, limit, delegate);
  }

  method AddUserMessages(sent: seq<Blob>, overhead: nat, limit: int, delegate: Option<(nat, nat) -> seq<Blob>>)
    returns (toSend: seq<Blob>)
    ensures toSend == WithUser(sent, overhead, limit, delegate)
  {
    toSend := sent;
    if delegate.Some? {
      var bytesUsed := TotalCost(sent, overhead);
      var avail := limit - bytesUsed;
      if avail > overhead + USER_MSG_OVERHEAD {
        var userMsgs := delegate.value(overhead + USER_MSG_OVERHEAD, avail);
        toSend := FrameAll(sent, userMsgs);
      }
    }
  }

  lemma OutgoingFits(c: Call, queue: seq<Item>, delegate: Option<(nat, nat) -> seq<Blob>>)
    requires delegate.Some? ==> forall o: nat, l: nat :: Cost(delegate.value(o, l), o) <= l
    ensures Outgoing(c, queue, delegate) != [] ==> Cost(Outgoing(c, queue, delegate), c.overhead) <= c.limit
  {
    SentCost(c, queue);
    var sent := Sweep(c, queue).sent;
    var avail := c.limit - Cost(sent, c.overhead);
    if delegate.Some? && avail > c.overhead + USER_MSG_OVERHEAD {
      var user := delegate.value(c.overhead + USER_MSG_OVERHEAD, avail);
      assert Cost(user, c.overhead + 1) <= avail;
      FramedCost(user, c.overhead);
      CostConcat(sent, Framed(user), c.overhead);
    }
  }

  method TotalCost(msgs: seq<Blob>, overhead: nat) returns (n: nat)
    ensures n == Cost(msgs, overhead)
  {
    n := 0;
    for i := 0 to |msgs|
      invariant n == Cost(msgs[..i], overhead)
    {
      assert msgs[..i + 1][..i] == msgs[..i];
      n := n + |msgs[i]| + overhead;
    }
    assert msgs[..|msgs|] == msgs;
  }

  method FrameAll(toSend: seq<Blob>, userMsgs: seq<Blob>) returns (r: seq<Blob>)
    ensures r == toSend + Framed(userMsgs)
  {
    r := toSend;
    for i := 0 to |userMsgs|
      invariant r == toSend + Framed(userMsgs[..i])
    {
      assert userMsgs[..i + 1][..i] == userMsgs[..i];
      r := r + [[USER_MSG] + userMsgs[i]];
    }
    assert userMsgs[..|userMsgs|] == userMsgs;
  }

  // ---------- which packets are decoded to what was sent ----------

  /** A message counts for its own bytes and each of the others for at least `least`. */
  lemma {:induction false} CostAtLeast(msgs: seq<Blob>, overhead: nat, least: nat, k: nat)
    requires k < |msgs| && forall i :: 0 <= i < |msgs| ==> |msgs[i]| >= least
    ensures Cost(msgs, overhead) >= (|msgs| - 1) * (overhead + least) + overhead + |msgs[k]|
    decreases |msgs|
  {
    var front := msgs[..|msgs| - 1];
    if k < |front| {
      CostAtLeast(front, overhead, least, k);
    } else if front != [] {
      CostAtLeast(front, overhead, least, 0);
    }
    assert (|msgs| - 1) * (overhead + least) == (|msgs| - 2) * (overhead + least) + overhead + least;
  }

  ghost predicate InBudget(msgs: seq<Blob>) {
    Cost(msgs, COMPOUND_OVERHEAD) <= UDP_SEND_BUF - COMPOUND_HEADER_OVERHEAD
  }

  /** Within the budget of a packet every message is short, and there are at most 127 of nine
      bytes or more. */
  lemma BudgetBounds(msgs: seq<Blob>)
    requires InBudget(msgs)
    ensures Short(msgs)
    ensures (forall i :: 0 <= i < |msgs| ==> |msgs[i]| >= 9) ==> |msgs| <= 127
  {
    forall i | 0 <= i < |msgs| ensures |msgs[i]| < 65536 { CostAtLeast(msgs, COMPOUND_OVERHEAD, 0, i); }
    if msgs != [] && forall i :: 0 <= i < |msgs| ==> |msgs[i]| >= 9 { CostAtLeast(msgs, COMPOUND_OVERHEAD, 9, 0); }
  }

  /** So messages of at least nine bytes each always survive. */
  lemma LongMessagesSurvive(msgs: seq<Blob>)
    requires InBudget(msgs) && forall i :: 0 <= i < |msgs| ==> |msgs[i]| >= 9
    ensures Decode(Compound(msgs)[1..]) == Split(0, msgs)
  {
    BudgetBounds(msgs);
    RoundTrip(msgs);
  }

  /** When the first message is an alive, dead or user message, whose type bytes are above 3, a
      packet is decoded to what was sent if and only if it has at most 127 parts. */
  lemma PacketDecodesIff(msgs: seq<Blob>)
    requires InBudget(msgs)
    requires msgs != [] && (forall i :: 0 <= i < |msgs| ==> msgs[i] != []) && msgs[0][0] > 3
    ensures Decode(Compound(msgs)[1..]) == Split(0, msgs) <==> |msgs| <= 127
  {
    if |msgs| <= 127 {
      BudgetBounds(msgs);
      RoundTrip(msgs);
    } else {
      ManyPartsFail(msgs);
    }
  }

  lemma ManyPartsFail(msgs: seq<Blob>)
    requires InBudget(msgs) && 128 <= |msgs|
    requires (forall i :: 0 <= i < |msgs| ==> msgs[i] != []) && msgs[0][0] > 3
    ensures Decode(Compound(msgs)[1..]) != Split(0, msgs)
  {
    if |msgs| < 256 {
      BelowKilobyte(msgs, |msgs| - 128);
      HighByte(|msgs[|msgs| - 128]|);
      TooManyMessages(msgs);
    } else {
      RoundTripIff(msgs);
    }
  }

  lemma BelowKilobyte(msgs: seq<Blob>, k: nat)
    requires InBudget(msgs)
    requires 128 <= |msgs| && k < |msgs| && forall i :: 0 <= i < |msgs| ==> msgs[i] != []
    ensures |msgs[k]| < 1024
  {
    CostAtLeast(msgs, COMPOUND_OVERHEAD, 1, k);
  }

  lemma HighByte(n: nat)
    requires n < 1024
    ensures n / 256 % 256 <= 3
  {
  }

  /** Every packet that gossip sends fits the UDP buffer, with either encryption version and
      without encryption.  Compression replaces the message only by a shorter one.  The messages in
      it are within the budget for which PacketDecodesIff says what becomes of them. */
  method GossipPacket(q: TransmitLimitedQueue, transmitLimit: int, delegate: Option<(nat, nat) -> seq<Blob>>,
                      compressed: Option<Blob>, encryption: Option<Version>, nonce: Blob)
    returns (size: Option<nat>, msg: Blob, msgs: seq<Blob>)
    requires q.Valid() && |nonce| == NONCE_SIZE
    requires delegate.Some? ==> forall o: nat, l: nat :: Cost(delegate.value(o, l), o) <= l
    modifies q`bcQueue, q`finished, q`log
    ensures q.Valid() && msgs == Outgoing(GossipCall(encryption, transmitLimit), old(q.bcQueue), delegate)
    ensures (size.Some? <==> msgs != []) && (size.Some? ==> size.value <= 1400)
    ensures size.Some? ==> msg == Shorter(Compound(msgs), compressed)
    ensures size.Some? ==> size.value == if encryption.None? then |msg| else EncryptedLength(encryption.value, |msg|)
    ensures InBudget(msgs)
  {
    var bytesAvail := UDP_SEND_BUF - COMPOUND_HEADER_OVERHEAD;
    if encryption.Some? { bytesAvail := bytesAvail - EncryptOverhead(encryption.value); }
    msgs := GetBroadcasts(q, transmitLimit, COMPOUND_OVERHEAD, bytesAvail, delegate);
    msg := [];
    if |msgs| == 0 { return None, msg, msgs; }
    msg := MakeCompoundMessage(msgs);
    if compressed.Some? && |compressed.value| < |msg| { msg := compressed.value; }
    if encryption.Some? {
      var _, _, n := EncryptPayload(encryption.value, [], msg, nonce);
      return Some(n), msg, msgs;
    }
    return Some(|msg|), msg, msgs;
  }

  /** A compressed message is sent only if it is shorter. */
  ghost function Shorter(msg: Blob, compressed: Option<Blob>): Blob {
    if compressed.Some? && |compressed.value| < |msg| then compressed.value else msg
  }

  ghost function GossipCall(encryption: Option<Version>, transmitLimit: int): Call {
    Call(COMPOUND_OVERHEAD,
         UDP_SEND_BUF - COMPOUND_HEADER_OVERHEAD - (if encryption.Some? then EncryptOverhead(encryption.value) else 0),
         transmitLimit)
  }

  lemma {:induction false} CostOfEmpty(msgs: seq<Blob>, overhead: nat)
    requires forall i :: 0 <= i < |msgs| ==> msgs[i] == []
    ensures Cost(msgs, overhead) == |msgs| * overhead
  {
    if msgs == [] {
    } else {
      CostOfEmpty(msgs[..|msgs| - 1], overhead);
      assert |msgs| * overhead == (|msgs| - 1) * overhead + overhead;
    }
  }

  lemma {:induction false} FramedAt(msgs: seq<Blob>, i: nat)
    requires i < |msgs|
    ensures |Framed(msgs)| == |msgs| && Framed(msgs)[i] == [USER_MSG] + msgs[i]
  {
    if |msgs| == 1 {
    } else {
      FramedAt(msgs[..|msgs| - 1], if i == |msgs| - 1 then 0 else i);
    }
  }

  /** As many empty messages as 128, if they fit. */
  function EmptyMessages(overhead: nat, limit: nat): seq<Blob> {
    if 128 * overhead <= limit then seq(128, _ => []) else []
  }

  lemma EmptyMessagesFit(overhead: nat, limit: nat)
    ensures Cost(EmptyMessages(overhead, limit), overhead) <= limit
  {
    CostOfEmpty(EmptyMessages(overhead, limit), overhead);
  }

  /** A delegate that keeps to its limit and has 128 empty messages: in every mode gossip sends a
      packet that is not decoded to them. */
  method UndecodedGossip(transmitLimit: int, compressed: Option<Blob>, encryption: Option<Version>, nonce: Blob)
    returns (size: Option<nat>, msgs: seq<Blob>)
    requires |nonce| == NONCE_SIZE
    ensures size.Some? && |msgs| == 128 && (forall i :: 0 <= i < 128 ==> msgs[i] == [8])
    ensures Decode(Compound(msgs)[1..]) != Split(0, msgs)
  {
    var q := new TransmitLimitedQueue();
    forall o: nat, l: nat ensures Cost(EmptyMessages(o, l), o) <= l { EmptyMessagesFit(o, l); }
    var msg;
    size, msg, msgs := GossipPacket(q, transmitLimit, Some(EmptyMessages), compressed, encryption, nonce);
    EmptyOutgoing(encryption, transmitLimit, msgs);
  }

  lemma EmptyOutgoing(encryption: Option<Version>, transmitLimit: int, msgs: seq<Blob>)
    requires msgs == Outgoing(GossipCall(encryption, transmitLimit), [], Some(EmptyMessages))
    ensures |msgs| == 128 && (forall i :: 0 <= i < 128 ==> msgs[i] == [USER_MSG])
    ensures Decode(Compound(msgs)[1..]) != Split(0, msgs)
  {
    var user: seq<Blob> := seq(128, _ => []);
    assert msgs == [] + Framed(user);
    forall i | 0 <= i < 128 ensures |msgs| == 128 && msgs[i] == [USER_MSG] { FramedAt(user, i); }
    FramedAt(user, 0);
    TooManyMessages(msgs);
  }
}
