/**
  IPv4 CIDR blocks (section 3.1 of RFC 4632): a prefix of p bits names the block of all
  addresses whose first p bits agree with it.
 */
module Subnets {
  import opened Options
  import opened Arith
  import opened Bytes
  import opened Bits
  import opened Ipam

  datatype Net = Net(ip: Address, prefix: nat)

  type Cidr = n: Net | n.prefix <= 32 witness Net([0, 0, 0, 0], 0)

  ghost function HostBits(n: Cidr): nat { 32 - n.prefix }

  /** The number of clear low bits in byte i of the mask. */
  function ClearBits(n: Cidr, i: nat): (b: nat)
    requires i < 4
    ensures b <= 8
  {
    if n.prefix >= 8 * i + 8 then 0 else if n.prefix <= 8 * i then 8 else 8 * i + 8 - n.prefix
  }

  function MaskByte(n: Cidr, i: nat): Byte
    requires i < 4
  {
    Pow2Eight();
    if ClearBits(n, i) < 8 then Pow2Below(ClearBits(n, i), 8); 256 - Pow2(ClearBits(n, i)) else 0
  }

  /** The addresses of the block: those with the same leading bits. */
  ghost predicate InBlock(n: Cidr, a: Address) {
    Shr(Value(a), HostBits(n)) == Shr(Value(n.ip), HostBits(n))
  }

  /** Membership as decided byte by byte under the mask. */
  predicate Contains(n: Cidr, a: Address) {
    forall i: nat :: i < 4 ==> And(n.ip[i], MaskByte(n, i)) == And(a[i], MaskByte(n, i))
  }

  // ---------- masks as shifts ----------

  lemma {:induction false} HighMask(x: nat, n: nat, b: nat)
    requires x < Pow2(n) && b <= n
    ensures Pow2(b) <= Pow2(n) && And(x, Pow2(n) - Pow2(b)) == Shl(Shr(x, b), b)
    decreases b
  {
    if b == 0 {
      MaskIsMod(x, n);
      ModUnique(x, Pow2(n), 0, x);
    } else {
      HighMask(x / 2, n - 1, b - 1);
      var m := Pow2(n) - Pow2(b);
      assert m / 2 == Pow2(n - 1) - Pow2(b - 1) && m % 2 == 0;
      assert And(x, m) == 2 * And(x / 2, m / 2);
    }
  }

  lemma {:induction false} LowOnes(x: nat, b: nat)
    ensures Or(x, Pow2(b) - 1) == Shl(Shr(x, b), b) + Pow2(b) - 1
    decreases b
  {
    if b == 0 {
      OrZero(x);
    } else {
      LowOnes(x / 2, b - 1);
      assert (Pow2(b) - 1) / 2 == Pow2(b - 1) - 1;
    }
  }

  lemma {:induction false} ShlInjective(u: nat, v: nat, b: nat)
    requires Shl(u, b) == Shl(v, b)
    ensures u == v
  {
    if b == 0 {
    } else {
      ShlInjective(u, v, b - 1);
    }
  }

  lemma {:induction false} ShrShl(u: nat, b: nat)
    ensures Shr(Shl(u, b), b) == u
  {
    if b == 0 {
    } else {
      ShrShl(u, b - 1);
    }
  }

  lemma {:induction false} ShrBounds(x: nat, b: nat)
    ensures Shl(Shr(x, b), b) <= x < Shl(Shr(x, b), b) + Pow2(b)
    decreases b
  {
    if b == 0 {
    } else {
      ShrBounds(x / 2, b - 1);
    }
  }

  lemma {:induction false} ShrShr(x: nat, i: nat, j: nat)
    ensures Shr(Shr(x, i), j) == Shr(x, i + j)
    decreases i
  {
    if i == 0 {
    } else {
      ShrShr(x / 2, i - 1, j);
    }
  }

  lemma {:induction false} ShrMonotone(x: nat, y: nat, b: nat)
    requires x <= y
    ensures Shr(x, b) <= Shr(y, b)
    decreases b
  {
    if b == 0 {
    } else {
      ShrMonotone(x / 2, y / 2, b - 1);
    }
  }

  /** Comparing x and y above bit r: compare above bit n, and the bits from r to n. */
  lemma {:induction false} SplitCompare(x: nat, y: nat, r: nat, n: nat)
    requires r <= n
    ensures Shr(x, r) == Shr(y, r) <==> Shr(x, n) == Shr(y, n) && Shr(x % Pow2(n), r) == Shr(y % Pow2(n), r)
    decreases n
  {
    if n == 0 {
    } else {
      HalvedMod(x, n);
      HalvedMod(y, n);
      SplitCompare(x / 2, y / 2, if r == 0 then 0 else r - 1, n - 1);
    }
  }

  lemma HalvedMod(x: nat, n: nat)
    requires n > 0
    ensures x % Pow2(n) / 2 == x / 2 % Pow2(n - 1) && x % Pow2(n) % 2 == x % 2
  {
    HalfMod(x, Pow2(n - 1));
  }

  lemma MaskCompare(x: Byte, y: Byte, n: Cidr, i: nat)
    requires i < 4
    ensures And(x, MaskByte(n, i)) == Shl(Shr(x, ClearBits(n, i)), ClearBits(n, i))
    ensures And(x, MaskByte(n, i)) == And(y, MaskByte(n, i)) <==> Shr(x, ClearBits(n, i)) == Shr(y, ClearBits(n, i))
  {
    var b := ClearBits(n, i);
    Pow2Eight();
    HighMask(x, 8, b);
    HighMask(y, 8, b);
    if Shl(Shr(x, b), b) == Shl(Shr(y, b), b) { ShlInjective(Shr(x, b), Shr(y, b), b); }
  }

  // ---------- membership ----------

  ghost predicate ByteAgrees(n: Cidr, a: Address, i: nat)
    requires i < 4
  {
    Shr(a[i], ClearBits(n, i)) == Shr(n.ip[i], ClearBits(n, i))
  }

  /** The first i bytes agree exactly when the values agree above the bits of the other bytes. */
  ghost function Above(n: Cidr, i: nat): nat
    requires i <= 4
  {
    if HostBits(n) >= 32 - 8 * i then HostBits(n) else 32 - 8 * i
  }

  lemma AddressDigit(a: Address, i: nat)
    requires i < 4
    ensures Shr(Value(a), 8 * (3 - i)) % 256 == a[i]
    ensures Shr(Value(a), 32) == 0
  {
    var b0: nat, b1: nat, b2: nat, b3: nat := a[0], a[1], a[2], a[3];
    var v := Value(a);
    Shifts(v);
    assert v / 256 == (b0 * 256 + b1) * 256 + b2 && v / 256 / 256 == b0 * 256 + b1 && v / 256 / 256 / 256 == b0;
    ShrShr(v, 24, 8);
    ShrByte(b0, 0);
  }

  lemma ByteStep(n: Cidr, a: Address, i: nat)
    requires i < 4
    ensures Shr(Value(a), Above(n, i + 1)) == Shr(Value(n.ip), Above(n, i + 1))
       <==> Shr(Value(a), Above(n, i)) == Shr(Value(n.ip), Above(n, i)) && ByteAgrees(n, a, i)
  {
    var b, k := ClearBits(n, i), 8 * (3 - i);
    Pow2Eight();
    if b == 8 {
      ShrByte(a[i], 0);
      ShrByte(n.ip[i], 0);
    } else {
      AddressDigit(a, i);
      AddressDigit(n.ip, i);
      SplitCompare(Shr(Value(a), k), Shr(Value(n.ip), k), b, 8);
      ShrShr(Value(a), k, b);
      ShrShr(Value(n.ip), k, b);
      ShrShr(Value(a), k, 8);
      ShrShr(Value(n.ip), k, 8);
    }
  }

  lemma {:induction false} BytesAgree(n: Cidr, a: Address, i: nat)
    requires i <= 4
    ensures Shr(Value(a), Above(n, i)) == Shr(Value(n.ip), Above(n, i)) <==> forall j: nat :: j < i ==>
              ByteAgrees(n, a, j)
  {
    if i == 0 {
      AddressDigit(a, 0);
      AddressDigit(n.ip, 0);
    } else {
      BytesAgree(n, a, i - 1);
      ByteStep(n, a, i - 1);
    }
  }

  /** The masked comparison decides membership in the block. */
  lemma ContainsIsInBlock(n: Cidr, a: Address)
    ensures Contains(n, a) <==> InBlock(n, a)
  {
    forall i: nat | i < 4 ensures ByteAgrees(n, a, i) <==> And(n.ip[i], MaskByte(n, i)) == And(a[i], MaskByte(n, i)) {
      MaskCompare(n.ip[i], a[i], n, i);
    }
    BytesAgree(n, a, 4);
  }

  // ---------- first and last address ----------

  lemma ValueMonotone(a: Address, b: Address)
    requires forall i: nat :: i < 4 ==> a[i] <= b[i]
    ensures Value(a) <= Value(b)
  {
  }

  ghost predicate IsRange(n: Cidr, first: Address, last: Address) {
    forall i: nat :: i < 4 ==> first[i] == And(n.ip[i], MaskByte(n, i)) && last[i] == Or(n.ip[i], 255 - MaskByte(n, i))
  }

  lemma RangeByte(n: Cidr, i: nat, f: Byte, l: Byte, x: Byte)
    requires i < 4 && f == And(n.ip[i], MaskByte(n, i)) && l == Or(n.ip[i], 255 - MaskByte(n, i))
    ensures Shr(f, ClearBits(n, i)) == Shr(l, ClearBits(n, i)) == Shr(n.ip[i], ClearBits(n, i))
    ensures Shr(x, ClearBits(n, i)) == Shr(n.ip[i], ClearBits(n, i)) ==> f <= x <= l
  {
    var b, d := ClearBits(n, i), n.ip[i];
    Pow2Eight();
    MaskCompare(d, d, n, i);
    LowOnes(d, b);
    ShrShl(Shr(d, b), b);
    ShrBounds(x, b);
    ShrBounds(l, b);
    OnlyShl(l, Shr(d, b), b);
  }

  lemma OnlyShl(x: nat, u: nat, b: nat)
    requires Shl(u, b) <= x < Shl(u, b) + Pow2(b)
    ensures Shr(x, b) == u
  {
    if b == 0 {
    } else {
      OnlyShl(x / 2, u, b - 1);
    }
  }

  /** The range of a block is an interval that holds exactly its addresses. */
  lemma RangeIsBlock(n: Cidr, first: Address, last: Address, a: Address)
    requires IsRange(n, first, last)
    ensures InBlock(n, a) <==> Value(first) <= Value(a) <= Value(last)
  {
    forall i: nat | i < 4
      ensures ByteAgrees(n, first, i) && ByteAgrees(n, last, i) && (ByteAgrees(n, a, i) ==> first[i] <= a[i] <= last[i])
    {
      RangeByte(n, i, first[i], last[i], a[i]);
    }
    BytesAgree(n, first, 4);
    BytesAgree(n, last, 4);
    BytesAgree(n, a, 4);
    if InBlock(n, a) {
      ValueMonotone(first, a);
      ValueMonotone(a, last);
    }
    if Value(first) <= Value(a) <= Value(last) {
      ShrMonotone(Value(first), Value(a), HostBits(n));
      ShrMonotone(Value(a), Value(last), HostBits(n));
    }
  }

  function Masked(n: Cidr): (r: Address)
    ensures forall i: nat :: i < 4 ==> r[i] == And(n.ip[i], MaskByte(n, i))
  {
    AndBound(n.ip[0], MaskByte(n, 0)); AndBound(n.ip[1], MaskByte(n, 1));
    AndBound(n.ip[2], MaskByte(n, 2)); AndBound(n.ip[3], MaskByte(n, 3));
    [And(n.ip[0], MaskByte(n, 0)), And(n.ip[1], MaskByte(n, 1)),
     And(n.ip[2], MaskByte(n, 2)), And(n.ip[3], MaskByte(n, 3))]
  }

  lemma RangeIsWholeBlock(n: Cidr, first: Address, last: Address)
    requires IsRange(n, first, last)
    ensures forall a: Address :: InBlock(n, a) <==> Value(first) <= Value(a) <= Value(last)
  {
    forall a: Address ensures InBlock(n, a) <==> Value(first) <= Value(a) <= Value(last) {
      RangeIsBlock(n, first, last, a);
    }
  }

  /** The bytes of the address with the bits outside the mask set. */
  method LastAddress(n: Cidr) returns (last: Address)
    ensures forall k :: 0 <= k < 4 ==> last[k] == Or(n.ip[k], 255 - MaskByte(n, k))
  {
    var l := new Byte[4](_ => 0);
    var i := 0;
    while i < l.Length
      invariant 0 <= i <= 4 && l.Length == 4
      invariant forall k :: 0 <= k < i ==> l[k] == Or(n.ip[k], 255 - MaskByte(n, k))
    {
      Pow2Eight();
      OrBound(n.ip[i], 255 - MaskByte(n, i), 8);
      l[i] := Or(n.ip[i], 255 - MaskByte(n, i));
      i := i + 1;
    }
    last := l[..];
  }

  /** The lowest and the highest address of a block. */
  method NetworkRange(n: Cidr) returns (first: Address, last: Address)
    ensures IsRange(n, first, last)
    ensures forall a: Address :: InBlock(n, a) <==> Value(first) <= Value(a) <= Value(last)
  {
    first := Masked(n);
    last := LastAddress(n);
    RangeIsWholeBlock(n, first, last);
  }

  // ---------- overlap ----------

  /** Some address lies in both blocks. */
  ghost predicate Overlap(x: Cidr, y: Cidr) { exists a: Address :: InBlock(x, a) && InBlock(y, a) }

  /** If the smaller block shares an address with the larger one, the larger holds all of it. */
  lemma SmallerInside(x: Cidr, y: Cidr, a: Address, b: Address)
    requires HostBits(x) <= HostBits(y) && InBlock(x, a) && InBlock(y, a) && InBlock(x, b)
    ensures InBlock(y, b)
  {
    var d: nat := HostBits(y) - HostBits(x);
    ShrShr(Value(a), HostBits(x), d);
    ShrShr(Value(b), HostBits(x), d);
    ShrShr(Value(x.ip), HostBits(x), d);
  }

  method NetworkOverlaps(x: Cidr, y: Cidr) returns (r: bool)
    ensures r <==> Overlap(x, y)
  {
    var fx, _ := NetworkRange(x);
    assert InBlock(x, fx);
    ContainsIsInBlock(y, fx);
    if Contains(y, fx) { return true; }
    var fy, _ := NetworkRange(y);
    assert InBlock(y, fy);
    ContainsIsInBlock(x, fy);
    if Contains(x, fy) { return true; }
    forall a: Address | InBlock(x, a) && InBlock(y, a) ensures false {
      if HostBits(x) <= HostBits(y) { SmallerInside(x, y, a, fx); } else { SmallerInside(y, x, a, fy); }
    }
    r := false;
  }

  // ---------- choosing a subnet ----------

  datatype Check = Free | Overlapping | NoRoutes

  ghost predicate Clear(n: Cidr, routes: seq<Option<Cidr>>) {
    forall k :: 0 <= k < |routes| && routes[k].Some? ==> !Overlap(n, routes[k].value)
  }

  /** The routing table is a parameter; None stands for a failed query, and a route without a
      destination is skipped. */
  method CheckRouteOverlaps(n: Cidr, table: Option<seq<Option<Cidr>>>) returns (r: Check)
    ensures table.None? <==> r == NoRoutes
    ensures table.Some? ==> (r == Free <==> Clear(n, table.value))
  {
    if table.None? { return NoRoutes; }
    var routes := table.value;
    var k := 0;
    while k < |routes|
      invariant 0 <= k <= |routes| && Clear(n, routes[..k])
    {
      if routes[k].Some? {
        var o := NetworkOverlaps(n, routes[k].value);
        if o { return Overlapping; }
      }
      assert routes[..k + 1] == routes[..k] + [routes[k]];
      k := k + 1;
    }
    assert routes[..k] == routes;
    r := Free;
  }

  ghost predicate Rejected(c: Option<Cidr>, table: Option<seq<Option<Cidr>>>) {
    c.Some? && (table.None? || !Clear(c.value, table.value))
  }

  /** The first candidate that is not rejected. */
  ghost predicate IsFirst(candidates: seq<Option<Cidr>>, table: Option<seq<Option<Cidr>>>, at: nat) {
    && at <= |candidates| && (at < |candidates| ==> !Rejected(candidates[at], table))
    && forall k :: 0 <= k < at ==> Rejected(candidates[k], table)
  }

  /** The first candidate that shares no address with any routed destination.  A candidate that
      does not parse ends the search, and while the routes are unknown all others are rejected. */
  method GetAvailableSubnet(candidates: seq<Option<Cidr>>, table: Option<seq<Option<Cidr>>>) returns (r: Option<Cidr>)
    ensures exists at: nat :: IsFirst(candidates, table, at) && r == if at < |candidates| then candidates[at] else None
    ensures r.Some? ==> table.Some? && Clear(r.value, table.value)
  {
    var k: nat := 0;
    while k < |candidates|
      invariant k <= |candidates| && forall j :: 0 <= j < k ==> Rejected(candidates[j], table)
    {
      if candidates[k].None? {
        assert IsFirst(candidates, table, k);
        return None;
      }
      var c := CheckRouteOverlaps(candidates[k].value, table);
      if c == Free {
        assert IsFirst(candidates, table, k);
        return candidates[k];
      }
      k := k + 1;
    }
    assert IsFirst(candidates, table, k);
    r := None;
  }
}
