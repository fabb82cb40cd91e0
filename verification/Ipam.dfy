/**
  From bit positions to IPv4 addresses and back.  A subnet is a 4-byte base address whose h
  host bits are zero; prefix lengths 1 to 32 leave 0 to 31 host bits.
 */
module Ipam {
  import opened Options
  import opened Arith
  import opened Bytes
  import opened Bits
  import BitmapStore

  type Address = a: seq<Byte> | |a| == 4 witness [0, 0, 0, 0]

  function Value(a: Address): nat {
    var b0: nat, b1: nat, b2: nat, b3: nat := a[0], a[1], a[2], a[3];
    ((b0 * 256 + b1) * 256 + b2) * 256 + b3
  }

  // ---------- masks and shifts as arithmetic ----------

  lemma {:induction false} MaskIsMod(x: nat, b: nat)
    ensures And(x, Pow2(b) - 1) == x % Pow2(b)
    decreases b
  {
    if b == 0 {
      AndBound(x, 0);
    } else if !(x == 0) {
      assert (Pow2(b) - 1) / 2 == Pow2(b - 1) - 1 && (Pow2(b) - 1) % 2 == 1;
      MaskIsMod(x / 2, b - 1);
      HalfMod(x, Pow2(b - 1));
    } else {
      AndBound(0, Pow2(b) - 1);
    }
  }

  lemma HalfMod(x: nat, m: nat)
    requires m > 0
    ensures x % (2 * m) == 2 * (x / 2 % m) + x % 2
  {
    var q, r := x / 2 / m, x / 2 % m;
    assert x / 2 == q * m + r;
    assert x == q * (2 * m) + (2 * r + x % 2);
    ModUnique(x, 2 * m, q, 2 * r + x % 2);
  }

  function Shl(x: nat, k: nat): nat { if k == 0 then x else 2 * Shl(x, k - 1) }

  function Shr(x: nat, k: nat): nat { if k == 0 then x else Shr(x / 2, k - 1) }

  lemma {:induction false} ShiftedMask(x: nat, m: nat, k: nat)
    ensures Shr(And(x, Shl(m, k)), k) == And(Shr(x, k), m)
    decreases k
  {
    if k == 0 {
    } else {
      assert And(x, Shl(m, k)) / 2 == And(x / 2, Shl(m, k - 1));
      ShiftedMask(x / 2, m, k - 1);
    }
  }

  lemma {:induction false} DisjointOr(d: nat, y: nat, b: nat)
    requires d % Pow2(b) == 0 && y < Pow2(b)
    ensures Or(d, y) == d + y
    decreases b
  {
    if b == 0 {
      OrZero(d);
    } else if d != 0 || y != 0 {
      HalfMod(d, Pow2(b - 1));
      DisjointOr(d / 2, y / 2, b - 1);
    }
  }

  lemma {:induction false} OrZero(d: nat)
    ensures Or(d, 0) == d
  {
    if d == 0 {
    } else {
      OrZero(d / 2);
    }
  }

  lemma ShlByte(x: nat, k: nat)
    ensures Shl(x, k + 8) == 256 * Shl(x, k)
  {
    assert Shl(x, k + 2) == 4 * Shl(x, k);
    assert Shl(x, k + 4) == 4 * Shl(x, k + 2);
    assert Shl(x, k + 6) == 4 * Shl(x, k + 4);
  }

  lemma ShrByte(x: nat, k: nat)
    ensures Shr(x, k + 8) == Shr(x / 256, k)
  {
    assert Shr(x, k + 8) == Shr(x / 4, k + 6) by { assert x / 2 / 2 == x / 4; }
    assert Shr(x / 4, k + 6) == Shr(x / 16, k + 4) by { assert x / 4 / 2 / 2 == x / 16; }
    assert Shr(x / 16, k + 4) == Shr(x / 64, k + 2) by { assert x / 16 / 2 / 2 == x / 64; }
    assert Shr(x / 64, k + 2) == Shr(x / 256, k) by { assert x / 64 / 2 / 2 == x / 256; }
  }

  lemma ByteMod(x: nat, m: nat)
    requires m > 0
    ensures x % (256 * m) == x % 256 + 256 * (x / 256 % m)
  {
    var q, r := x / 256 / m, x / 256 % m;
    assert x / 256 == q * m + r;
    assert x == q * (256 * m) + (256 * r + x % 256);
    ModUnique(x, 256 * m, q, 256 * r + x % 256);
  }

  /** The low bc bytes of x and b bits of the next one. */
  function Low(x: nat, bc: nat, b: nat): nat {
    if bc == 0 then x % Pow2(b) else x % 256 + 256 * Low(x / 256, bc - 1, b)
  }

  lemma Pow2Byte(k: nat)
    ensures Pow2(k + 8) == 256 * Pow2(k)
  {
    assert Pow2(k + 2) == 4 * Pow2(k);
    assert Pow2(k + 4) == 4 * Pow2(k + 2);
    assert Pow2(k + 6) == 4 * Pow2(k + 4);
  }

  lemma {:induction false} LowIsMod(x: nat, bc: nat, b: nat)
    ensures Low(x, bc, b) == x % Pow2(8 * bc + b)
    decreases bc
  {
    if bc == 0 {
    } else {
      LowIsMod(x / 256, bc - 1, b);
      Pow2Byte(8 * (bc - 1) + b);
      ByteMod(x, Pow2(8 * (bc - 1) + b));
    }
  }

  // ---------- getIP and getBitPosition ----------

  /** The mask of the i-th byte from the right when h host bits are kept. */
  function MaskLen(i: nat, h: nat): (m: nat)
    requires i <= h / 8
    ensures m <= 255
  {
    Pow2Eight();
    Pow2Below(h % 8, 8);
    if i < h / 8 then 255 else if h % 8 != 0 then Pow2(h % 8) - 1 else 0
  }

  /** The i-th byte from the right of the host part of pos. */
  function HostByte(pos: nat, i: nat, h: nat): nat
    requires i <= h / 8
  {
    Shr(pos, 8 * i) % (MaskLen(i, h) + 1)
  }

  lemma MaskedShift(pos: nat, i: nat, h: nat)
    requires i <= h / 8
    ensures Shr(And(pos, Shl(MaskLen(i, h), 8 * i)), 8 * i) == HostByte(pos, i, h)
  {
    ShiftedMask(pos, MaskLen(i, h), 8 * i);
    MaskedByte(Shr(pos, 8 * i), i, h);
  }

  lemma MaskedByte(x: nat, i: nat, h: nat)
    requires i <= h / 8
    ensures And(x, MaskLen(i, h)) == x % (MaskLen(i, h) + 1)
  {
    Pow2Eight();
    MaskIsMod(x, 8);
    MaskIsMod(x, h % 8);
  }

  lemma Shifts(pos: nat)
    ensures Shr(pos, 0) == pos && Shr(pos, 8) == pos / 256
    ensures Shr(pos, 16) == pos / 256 / 256 && Shr(pos, 24) == pos / 256 / 256 / 256
  {
    ShrByte(pos, 0);
    ShrByte(pos, 8);
    ShrByte(pos / 256, 0);
    ShrByte(pos, 16);
    ShrByte(pos / 256, 8);
    ShrByte(pos / 256 / 256, 0);
  }

  /** The host bytes spell the position modulo the size of the subnet. */
  lemma HostBytesSum(pos: nat, h: nat)
    requires h < 32
    ensures pos % Pow2(h) == HostByte(pos, 0, h) + (if h / 8 >= 1 then 256 * HostByte(pos, 1, h) else 0)
                             + (if h / 8 >= 2 then 65536 * HostByte(pos, 2, h) else 0)
                             + (if h / 8 >= 3 then 16777216 * HostByte(pos, 3, h) else 0)
  {
    LowIsMod(pos, h / 8, h % 8);
    LowBytes(pos, h / 8, h % 8);
    HostByteIs(pos, 0, h);
    if h / 8 >= 1 { HostByteIs(pos, 1, h); }
    if h / 8 >= 2 { HostByteIs(pos, 2, h); }
    if h / 8 >= 3 { HostByteIs(pos, 3, h); }
  }

  lemma HostByteIs(pos: nat, i: nat, h: nat)
    requires h < 32 && i <= h / 8
    ensures var x := match i
                     case 0 => pos
                     case 1 => pos / 256
                     case 2 => pos / 256 / 256
                     case _ => pos / 256 / 256 / 256;
            HostByte(pos, i, h) == if i < h / 8 then x % 256 else x % Pow2(h % 8)
  {
    Shifts(pos);
  }

  lemma LowBytes(x: nat, bc: nat, b: nat)
    requires bc < 4
    ensures var x1 := x / 256; var x2 := x1 / 256;
            Low(x, bc, b) == match bc
                             case 0 => x % Pow2(b)
                             case 1 => x % 256 + 256 * (x1 % Pow2(b))
                             case 2 => x % 256 + 256 * (x1 % 256) + 65536 * (x2 % Pow2(b))
                             case _ => x % 256 + 256 * (x1 % 256) + 65536 * (x2 % 256) + 16777216 * (x2 / 256 % Pow2(b))
  {
    var x1 := x / 256;
    var x2 := x1 / 256;
    if bc >= 1 {
      assert Low(x, bc, b) == x % 256 + 256 * Low(x1, bc - 1, b);
      if bc >= 2 {
        assert Low(x1, bc - 1, b) == x1 % 256 + 256 * Low(x2, bc - 2, b);
        if bc == 3 { assert Low(x2, 1, b) == x2 % 256 + 256 * Low(x2 / 256, 0, b); }
      }
    }
  }

  /** Bytes of an address are the host bytes of its value. */
  lemma AddressBytes(a: Address, i: nat, h: nat)
    requires h < 32 && i <= h / 8
    ensures HostByte(Value(a), i, h) == a[3 - i] % (MaskLen(i, h) + 1)
  {
    var b0: nat, b1: nat, b2: nat, b3: nat := a[0], a[1], a[2], a[3];
    var v := Value(a);
    Shifts(v);
    assert v / 256 == (b0 * 256 + b1) * 256 + b2 && v % 256 == b3;
    assert v / 256 / 256 == b0 * 256 + b1 && v / 256 % 256 == b2;
    assert v / 256 / 256 / 256 == b0 && v / 256 / 256 % 256 == b1;
    LastByte(Shr(v, 8 * i), a[3 - i], i, h);
  }

  lemma LastByte(x: nat, y: nat, i: nat, h: nat)
    requires i <= h / 8 && x % 256 == y
    ensures x % (MaskLen(i, h) + 1) == y % (MaskLen(i, h) + 1)
  {
    if i == h / 8 {
      Pow2Eight();
      FinerMod(x, y, h % 8, 8);
    }
  }

  lemma {:induction false} FinerMod(x: nat, y: nat, b: nat, n: nat)
    requires b <= n && x % Pow2(n) == y % Pow2(n)
    ensures x % Pow2(b) == y % Pow2(b)
    decreases n
  {
    if b == 0 {
    } else {
      HalfMod(x, Pow2(n - 1));
      HalfMod(y, Pow2(n - 1));
      FinerMod(x / 2, y / 2, b - 1, n - 1);
      HalfMod(x, Pow2(b - 1));
      HalfMod(y, Pow2(b - 1));
    }
  }

  lemma ZeroHost(a: Address, h: nat, i: nat)
    requires h < 32 && Value(a) % Pow2(h) == 0 && i <= h / 8
    ensures a[3 - i] % (MaskLen(i, h) + 1) == 0
  {
    HostBytesSum(Value(a), h);
    AddressBytes(a, i, h);
    assert i == 0 || i == 1 || i == 2 || i == 3;
  }

  /** Adding a host byte to a byte whose host bits are clear. */
  lemma OrHostByte(d: Byte, pos: nat, i: nat, h: nat)
    requires i <= h / 8 && d % (MaskLen(i, h) + 1) == 0
    ensures Or(d, HostByte(pos, i, h)) == d + HostByte(pos, i, h) < 256
  {
    Pow2Eight();
    var b := if i < h / 8 then 8 else h % 8;
    assert MaskLen(i, h) + 1 == Pow2(b);
    DisjointOr(d, HostByte(pos, i, h), b);
    Pow2Below(h % 8, 8);
    OrBound(d, HostByte(pos, i, h), 8);
  }

  /** The address of bit position pos: the base address plus pos modulo the subnet size. */
  method GetIP(subnet: Address, prefix: nat, pos: nat) returns (r: Address)
    requires 1 <= prefix <= 32 && Value(subnet) % Pow2(32 - prefix) == 0
    ensures Value(r) == Value(subnet) + pos % Pow2(32 - prefix)
  {
    var ret := new Byte[4](i requires 0 <= i < 4 => subnet[i]);
    OrHostBytes(ret, subnet, prefix, pos);
    r := ret[..];
    SumOfBytes(subnet, r, pos, 32 - prefix);
  }

  /** The loop of getIP. */
  method OrHostBytes(ret: array<Byte>, ghost subnet: Address, prefix: nat, pos: nat)
    requires 1 <= prefix <= 32 && Value(subnet) % Pow2(32 - prefix) == 0 && ret.Length == 4 && ret[..] == subnet
    modifies ret
    ensures forall k :: 0 <= k < 4 ==>
              ret[k] == subnet[k] + if 3 - k <= (32 - prefix) / 8 then HostByte(pos, 3 - k, 32 - prefix) else 0
  {
    ghost var h := 32 - prefix;
    var byteCount, bitCount := (32 - prefix) / 8, (32 - prefix) % 8;
    var i := 0;
    while i <= byteCount
      invariant 0 <= i <= byteCount + 1 <= 4
      invariant forall k :: 0 <= k < 4 ==> ret[k] == subnet[k] + if 3 - k < i then HostByte(pos, 3 - k, h) else 0
    {
      var maskLen := 255;
      if i == byteCount {
        maskLen := if bitCount != 0 then Pow2(bitCount) - 1 else 0;
      }
      SetHostByte(subnet, pos, i, h);
      assert maskLen == MaskLen(i, h);
      ret[3 - i] := Or(ret[3 - i], Shr(And(pos, Shl(maskLen, 8 * i)), 8 * i));
      i := i + 1;
    }
  }

  lemma SetHostByte(subnet: Address, pos: nat, i: nat, h: nat)
    requires h < 32 && i <= h / 8 && Value(subnet) % Pow2(h) == 0
    ensures var masked := Shr(And(pos, Shl(MaskLen(i, h), 8 * i)), 8 * i);
            Or(subnet[3 - i], masked) == subnet[3 - i] + HostByte(pos, i, h) < 256
  {
    MaskedShift(pos, i, h);
    ZeroHost(subnet, h, i);
    OrHostByte(subnet[3 - i], pos, i, h);
  }

  lemma SumOfBytes(subnet: Address, r: Address, pos: nat, h: nat)
    requires h < 32
    requires forall k :: 0 <= k < 4 ==> r[k] == subnet[k] + if 3 - k <= h / 8 then HostByte(pos, 3 - k, h) else 0
    ensures Value(r) == Value(subnet) + pos % Pow2(h)
  {
    HostBytesSum(pos, h);
  }

  /** The host part of an address. */
  method GetBitPosition(address: Address, prefix: nat) returns (pos: nat)
    requires 1 <= prefix <= 32
    ensures pos == Value(address) % Pow2(32 - prefix)
  {
    ghost var h := 32 - prefix;
    ghost var v := Value(address);
    var byteCount, bitCount := (32 - prefix) / 8, (32 - prefix) % 8;
    pos := 0;
    var i := 0;
    while i <= byteCount
      invariant 0 <= i <= byteCount + 1 <= 4
      invariant pos == (if i > 0 then HostByte(v, 0, h) else 0) + (if i > 1 then 256 * HostByte(v, 1, h) else 0)
                       + (if i > 2 then 65536 * HostByte(v, 2, h) else 0)
                       + (if i > 3 then 16777216 * HostByte(v, 3, h) else 0)
    {
      var maskLen := 255;
      if i == byteCount {
        maskLen := if bitCount != 0 then Pow2(bitCount) - 1 else 0;
      }
      AddressBytes(address, i, h);
      MaskedByte(address[3 - i], i, h);
      ShlBytes(HostByte(v, i, h), i);
      pos := pos + Shl(And(address[3 - i], maskLen), 8 * i);
      i := i + 1;
    }
    HostBytesSum(v, h);
  }

  lemma ShlBytes(x: nat, i: nat)
    requires i < 4
    ensures Shl(x, 8 * i) == match i case 0 => x case 1 => 256 * x case 2 => 65536 * x case _ => 16777216 * x
  {
    ShlByte(x, 0);
    ShlByte(x, 8);
    ShlByte(x, 16);
  }

  // ---------- positions and addresses ----------

  /** The address that getIP gives to a position. */
  ghost function AddressOf(n: nat, prefix: nat, pos: nat): nat
    requires prefix <= 32
  {
    n + pos % Pow2(32 - prefix)
  }

  lemma PositionOfAddress(n: nat, prefix: nat, pos: nat)
    requires 1 <= prefix <= 32 && n % Pow2(32 - prefix) == 0
    ensures AddressOf(n, prefix, pos) % Pow2(32 - prefix) == pos % Pow2(32 - prefix)
  {
    var m := Pow2(32 - prefix);
    var q := n / m;
    assert n == q * m;
    ModUnique(AddressOf(n, prefix, pos), m, q, pos % m);
  }

  /** The positions a bitmap of the allocated size can hand out are 1..8 * bytes.  They name
      different addresses exactly for prefixes up to 29; longer ones alias. */
  lemma AddressesDistinctIff(n: nat, prefix: nat, bytes: nat)
    requires 1 <= prefix <= 32 && BitmapSize(Pow2(32 - prefix), bytes)
    ensures (forall p: nat, q: nat :: 1 <= p < q <= 8 * bytes ==> AddressOf(n, prefix, p) != AddressOf(n, prefix, q))
       <==> prefix <= 29
  {
    var m := Pow2(32 - prefix);
    if prefix <= 29 {
      WholeBytes(prefix, bytes);
      forall p: nat, q: nat | 1 <= p < q <= 8 * bytes ensures AddressOf(n, prefix, p) != AddressOf(n, prefix, q) {
        DifferentMod(p, q, m);
      }
    } else {
      SmallSubnet(prefix, bytes);
      SameMod(m);
      assert AddressOf(n, prefix, 1) == AddressOf(n, prefix, 1 + m);
    }
  }

  lemma SameMod(m: nat)
    requires m >= 1
    ensures 1 % m == (1 + m) % m
  {
    var r := if m == 1 then 0 else 1;
    ModUnique(1, m, 1 - r, r);
    ModUnique(1 + m, m, 2 - r, r);
  }

  lemma WholeBytes(prefix: nat, bytes: nat)
    requires prefix <= 29 && BitmapSize(Pow2(32 - prefix), bytes)
    ensures Pow2(32 - prefix) == 8 * bytes
  {
    Pow2Eighth(32 - prefix);
  }

  lemma SmallSubnet(prefix: nat, bytes: nat)
    requires 30 <= prefix <= 32 && BitmapSize(Pow2(32 - prefix), bytes)
    ensures 1 <= Pow2(32 - prefix) && Pow2(32 - prefix) + 1 < 8 * bytes
  {
    assert Pow2(0) == 1 && Pow2(1) == 2 && Pow2(2) == 4;
  }

  lemma DifferentMod(p: nat, q: nat, m: nat)
    requires 1 <= p < q <= m
    ensures p % m != q % m
  {
    ModUnique(p, m, 0, p);
    if q < m { ModUnique(q, m, 0, q); } else { ModUnique(q, m, 1, 0); }
  }

  lemma Pow2Eighth(h: nat)
    requires h >= 3
    ensures Pow2(h) % 8 == 0
  {
    assert Pow2(h) == 2 * Pow2(h - 1) == 4 * Pow2(h - 2) == 8 * Pow2(h - 3);
  }

  /** The number of bytes that hold a bit for each address. */
  ghost predicate BitmapSize(bits: nat, bytes: nat) { 8 * (bytes - 1) < bits <= 8 * bytes }

  method BitmapBytes(prefix: nat) returns (bc: nat)
    requires prefix <= 32
    ensures BitmapSize(Pow2(32 - prefix), bc)
  {
    var bits := Pow2(32 - prefix);
    bc := bits / 8;
    var partial := bits % 8;
    if partial != 0 { bc := bc + 1; }
  }

  // ---------- the code between reading and writing the bitmap ----------

  method Copy(s: Bitmap) returns (a: array<Byte>)
    ensures fresh(a) && a[..] == s
  {
    a := new Byte[|s|](i requires 0 <= i < |s| => s[i]);
  }

  /** The write cur -> next of an attempt that found position pos free, or none at all. */
  ghost predicate Requested(got: Option<Bitmap>, prefix: nat, cur: Bitmap, next: Bitmap, bytes: nat, pos: nat)
    requires prefix <= 32
  {
    && BitmapSize(Pow2(32 - prefix), bytes)
    && var c := BitmapStore.Ip(bytes);
       BitmapStore.Attempt(c, got, BitmapStore.Trying(BitmapStore.Base(c, got), cur, next, pos))
  }

  /** IPAMRequest up to its write: an attempt of the machine, and the address of its position. */
  method RequestAttempt(got: Option<Bitmap>, subnet: Address, prefix: nat)
    returns (cur: Bitmap, next: Bitmap, address: Address)
    requires 1 <= prefix <= 32 && Value(subnet) % Pow2(32 - prefix) == 0
    ensures cur == if got.Some? then got.value else []
    ensures exists bytes: nat, pos: nat ::
              Requested(got, prefix, cur, next, bytes, pos) && Value(address) == AddressOf(Value(subnet), prefix, pos)
  {
    var bc := BitmapBytes(prefix);
    ghost var c := BitmapStore.Ip(bc);
    cur := if got.Some? then got.value else [];
    var a: array<Byte>;
    if got.Some? { a := Copy(got.value); } else { a := new Byte[bc](_ => 0); }
    assert a[..] == BitmapStore.Base(c, got);
    var p, f := TestAndSetBit(a);
    next := a[..];
    assert BitmapStore.TakesBit(BitmapStore.Base(c, got), f, next, p);
    address := GetIP(subnet, prefix, p);
    assert Requested(got, prefix, cur, next, bc, p);
  }

  /** Missing: there is no bitmap.  Panic: the position has no bit, which stops the program. */
  datatype Released = Missing | Panic | Write(cur: Bitmap, next: Bitmap)

  ghost function ReleaseOf(got: Option<Bitmap>, pos: nat): Released {
    if got.None? then Missing
    else if pos == 0 || pos > 8 * |got.value| then Panic
    else Write(got.value, Put(got.value, pos - 1, false))
  }

  /** IPAMRelease up to its write: it clears the bit of the address's position. */
  method ReleaseAttempt(got: Option<Bitmap>, address: Address, prefix: nat) returns (r: Released)
    requires 1 <= prefix <= 32
    ensures r == ReleaseOf(got, Value(address) % Pow2(32 - prefix))
  {
    if got.None? { return Missing; }
    var a := Copy(got.value);
    var p := GetBitPosition(address, prefix);
    if p == 0 || p > 8 * a.Length { return Panic; }
    ClearBit(a, p - 1);
    r := Write(got.value, a[..]);
  }

  /** The position computed from a granted address is the granted one if and only if it is below
      the size of the subnet. */
  lemma PositionIsGrantedIff(n: nat, prefix: nat, pos: nat)
    requires 1 <= prefix <= 32 && n % Pow2(32 - prefix) == 0
    ensures AddressOf(n, prefix, pos) % Pow2(32 - prefix) == pos <==> pos < Pow2(32 - prefix)
  {
    PositionOfAddress(n, prefix, pos);
    if pos < Pow2(32 - prefix) { ModUnique(pos, Pow2(32 - prefix), 0, pos); }
  }

  /** Then releasing the address clears exactly the granted bit, as a step of the machine. */
  lemma ReleaseClearsGranted(got: Option<Bitmap>, n: nat, prefix: nat, bytes: nat, pos: nat)
    requires 1 <= prefix <= 32 && n % Pow2(32 - prefix) == 0 && BitmapSize(Pow2(32 - prefix), bytes)
    requires 1 <= pos < Pow2(32 - prefix) && (got.Some? ==> |got.value| == bytes)
    ensures var r := ReleaseOf(got, AddressOf(n, prefix, pos) % Pow2(32 - prefix));
            && (r == Missing <==> got.None?) && r != Panic
            && BitmapStore.Release(BitmapStore.Ip(bytes), got, pos,
                 if r == Missing then BitmapStore.Done else BitmapStore.Releasing(pos, r.cur, r.next))
  {
    PositionIsGrantedIff(n, prefix, pos);
  }

  /** The position computed back from its address is the granted one for every position below
      the last bit, if and only if the prefix is at most 29: in a smaller subnet the bitmap has
      bits past its size, and a release clears another one. */
  lemma PositionsFitIff(n: nat, prefix: nat, bytes: nat)
    requires 1 <= prefix <= 32 && n % Pow2(32 - prefix) == 0 && BitmapSize(Pow2(32 - prefix), bytes)
    ensures (forall pos: nat :: 1 <= pos < 8 * bytes ==> AddressOf(n, prefix, pos) % Pow2(32 - prefix) == pos)
       <==> prefix <= 29
  {
    var m := Pow2(32 - prefix);
    if prefix <= 29 {
      forall pos: nat | 1 <= pos < 8 * bytes ensures AddressOf(n, prefix, pos) % m == pos {
        WholeBytes(prefix, bytes);
        PositionIsGrantedIff(n, prefix, pos);
      }
    } else {
      SmallSubnet(prefix, bytes);
      PositionIsGrantedIff(n, prefix, m);
      assert AddressOf(n, prefix, m) % m != m;
    }
  }

  /** So in a subnet with a prefix of at most 29, what the owner of a position does to release its
      address is the release step of the machine. */
  lemma OwnedIsReleased(n: nat, prefix: nat, bytes: nat, run: seq<BitmapStore.State>, steps: seq<BitmapStore.Step>,
                        k: nat, i: nat, pos: nat)
    requires 1 <= prefix <= 29 && n % Pow2(32 - prefix) == 0 && BitmapSize(Pow2(32 - prefix), bytes)
    requires BitmapStore.IsRun(BitmapStore.Ip(bytes), run, steps) && k <= |steps|
    requires forall j {:trigger steps[j]} :: 0 <= j < k ==> !BitmapStore.Overgrants(run[j], steps[j])
    requires BitmapStore.Owns(run[k], i, pos) && pos < 8 * bytes
    ensures var r := ReleaseOf(run[k].store, AddressOf(n, prefix, pos) % Pow2(32 - prefix));
            r.Write? && BitmapStore.Release(BitmapStore.Ip(bytes), run[k].store, pos,
                                            BitmapStore.Releasing(pos, r.cur, r.next))
  {
    OwnedIsStored(bytes, run, steps, k, i, pos);
    WholeBytes(prefix, bytes);
    ReleaseClearsGranted(run[k].store, n, prefix, bytes, pos);
  }

  lemma OwnedIsStored(bytes: nat, run: seq<BitmapStore.State>, steps: seq<BitmapStore.Step>, k: nat, i: nat, pos: nat)
    requires bytes > 0 && BitmapStore.IsRun(BitmapStore.Ip(bytes), run, steps) && k <= |steps|
    requires forall j {:trigger steps[j]} :: 0 <= j < k ==> !BitmapStore.Overgrants(run[j], steps[j])
    requires BitmapStore.Owns(run[k], i, pos)
    ensures 1 <= pos && run[k].store.Some? && |run[k].store.value| == bytes
  {
    BitmapStore.RunInv(BitmapStore.Ip(bytes), run, steps, k);
    assert BitmapStore.SessionOk(BitmapStore.Ip(bytes), run[k].store, run[k].sessions[i]);
  }

  /** While no request has found the bitmap of a subnet full, different live grants have
      different addresses, all inside the subnet. */
  lemma AddressesAreUnique(n: nat, prefix: nat, bytes: nat, run: seq<BitmapStore.State>,
                           steps: seq<BitmapStore.Step>, k: nat)
    requires 1 <= prefix <= 29 && BitmapSize(Pow2(32 - prefix), bytes)
    requires BitmapStore.IsRun(BitmapStore.Ip(bytes), run, steps) && k <= |steps|
    requires forall j {:trigger steps[j]} :: 0 <= j < k ==> !BitmapStore.Overgrants(run[j], steps[j])
    ensures forall i, p: nat :: BitmapStore.Owns(run[k], i, p) ==> n <= AddressOf(n, prefix, p) < n + Pow2(32 - prefix)
    ensures forall i, j, p: nat, q: nat ::
              i != j && BitmapStore.Owns(run[k], i, p) && BitmapStore.Owns(run[k], j, q) ==>
              AddressOf(n, prefix, p) != AddressOf(n, prefix, q)
  {
    BitmapStore.RunInv(BitmapStore.Ip(bytes), run, steps, k);
    AddressesDistinctIff(n, prefix, bytes);
  }

  // ---------- subnets with fewer than eight addresses ----------

  /** No two sessions hold the same address of the subnet with base address n. */
  ghost predicate AddressesApart(n: nat, prefix: nat, s: BitmapStore.State)
    requires prefix <= 32
  {
    forall i, j, p: nat, q: nat :: i != j && BitmapStore.Owns(s, i, p) && BitmapStore.Owns(s, j, q) ==>
      AddressOf(n, prefix, p) != AddressOf(n, prefix, q)
  }

  /** Through every run in which no request has found the bitmap full. */
  ghost predicate AlwaysApart(n: nat, prefix: nat, bytes: nat)
    requires prefix <= 32
  {
    forall run, steps :: BitmapStore.IsRun(BitmapStore.Ip(bytes), run, steps) && BitmapStore.NeverFull(run, steps) ==>
      AddressesApart(n, prefix, run[|steps|])
  }

  /** With a prefix above 29 as many requests as the subnet has addresses, and one more, end in two
      grants of one address, although each has its own position and the bitmap is not full. */
  lemma SmallSubnetShares(n: nat, prefix: nat, bytes: nat)
    returns (run: seq<BitmapStore.State>, steps: seq<BitmapStore.Step>)
    requires 30 <= prefix <= 32 && BitmapSize(Pow2(32 - prefix), bytes)
    ensures BitmapStore.IsRun(BitmapStore.Ip(bytes), run, steps) && BitmapStore.NeverFull(run, steps)
    ensures var s, m := run[|steps|], Pow2(32 - prefix);
      && BitmapStore.Unique(s) && s.store.Some?
      && BitmapStore.Filled(BitmapStore.Ip(bytes), s, m + 1) && m + 1 < 8 * bytes
      && BitmapStore.Owns(s, 0, 1) && BitmapStore.Owns(s, m, m + 1)
      && AddressOf(n, prefix, 1) == AddressOf(n, prefix, m + 1)
  {
    var m := Pow2(32 - prefix);
    SmallSubnet(prefix, bytes);
    SameMod(m);
    run, steps := BitmapStore.Fill(BitmapStore.Ip(bytes), m + 1);
    BitmapStore.RunInv(BitmapStore.Ip(bytes), run, steps, |steps|);
    OwnedIsStored(bytes, run, steps, |steps|, 0, 1);
  }

  /** So live grants always have different addresses if and only if the prefix is at most 29. */
  lemma AlwaysApartIff(n: nat, prefix: nat, bytes: nat)
    requires 1 <= prefix <= 32 && BitmapSize(Pow2(32 - prefix), bytes)
    ensures AlwaysApart(n, prefix, bytes) <==> prefix <= 29
  {
    if prefix <= 29 {
      forall run, steps | BitmapStore.IsRun(BitmapStore.Ip(bytes), run, steps) && BitmapStore.NeverFull(run, steps)
        ensures AddressesApart(n, prefix, run[|steps|])
      {
        AddressesAreUnique(n, prefix, bytes, run, steps, |steps|);
      }
    } else {
      var run, steps := SmallSubnetShares(n, prefix, bytes);
      assert !AddressesApart(n, prefix, run[|steps|]);
    }
  }

  /** Releasing the second of the two grants stops the program for prefix 32.  For prefixes 30 and
      31 it clears the bit of the first one, which is still held, and the next request is granted
      that position again. */
  lemma SharedIsReleasedWrongly(n: nat, prefix: nat, bytes: nat, s: BitmapStore.State)
    requires 30 <= prefix <= 32 && n % Pow2(32 - prefix) == 0 && BitmapSize(Pow2(32 - prefix), bytes)
    requires s.store.Some? && BitmapStore.Filled(BitmapStore.Ip(bytes), s, Pow2(32 - prefix) + 1)
    ensures var m := Pow2(32 - prefix);
            var r := ReleaseOf(s.store, AddressOf(n, prefix, m + 1) % m);
      && (r.Panic? <==> prefix == 32) && (r.Write? <==> prefix <= 31)
      && (prefix <= 31 ==> r.cur == s.store.value && Has(r.next, m) && BitmapStore.Owns(s, 0, 1)
                           && BitmapStore.TakesBit(r.next, 0, Put(r.next, 0, true), 1))
  {
    var m := Pow2(32 - prefix);
    SmallSubnet(prefix, bytes);
    PositionOfAddress(n, prefix, m + 1);
    SameMod(m);
    assert m == if prefix == 32 then 1 else if prefix == 31 then 2 else 4;
    if prefix <= 31 {
      ModUnique(1, m, 0, 1);
      PutUpdates(s.store.value, 0, false);
    }
  }
}
