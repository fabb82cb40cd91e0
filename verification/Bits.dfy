/**
  Bytes and bitmaps.  Bytes are numbers below 256; the bit operators are defined on the
  binary representation.  Bit k of a bitmap is bit k % 8 of byte k / 8.
 */
module Bits {
  import opened Arith
  import opened Bytes

  predicate Bit(x: nat, i: nat) { if i == 0 then x % 2 == 1 else Bit(x / 2, i - 1) }

  function Or(x: nat, y: nat): nat
    decreases x + y
  {
    if x == 0 && y == 0 then 0 else 2 * Or(x / 2, y / 2) + (if x % 2 == 1 || y % 2 == 1 then 1 else 0)
  }

  function And(x: nat, y: nat): nat
    decreases x + y
  {
    if x == 0 && y == 0 then 0 else 2 * And(x / 2, y / 2) + (if x % 2 == 1 && y % 2 == 1 then 1 else 0)
  }

  // ---------- bit by bit ----------

  lemma ZeroBit(i: nat)
    ensures !Bit(0, i)
  {
  }

  lemma {:induction false} OrBit(x: nat, y: nat, i: nat)
    ensures Bit(Or(x, y), i) <==> Bit(x, i) || Bit(y, i)
    decreases i
  {
    if x == 0 && y == 0 {
      ZeroBit(i);
    } else if i > 0 {
      assert Or(x, y) / 2 == Or(x / 2, y / 2);
      OrBit(x / 2, y / 2, i - 1);
    }
  }

  lemma {:induction false} AndBit(x: nat, y: nat, i: nat)
    ensures Bit(And(x, y), i) <==> Bit(x, i) && Bit(y, i)
    decreases i
  {
    if x == 0 && y == 0 {
      ZeroBit(i);
    } else if i > 0 {
      assert And(x, y) / 2 == And(x / 2, y / 2);
      AndBit(x / 2, y / 2, i - 1);
    }
  }

  lemma {:induction false} Pow2Bit(j: nat, i: nat)
    ensures Bit(Pow2(j), i) <==> i == j
    decreases i
  {
    if j > 0 {
      assert Pow2(j) / 2 == Pow2(j - 1) && Pow2(j) % 2 == 0;
      if i > 0 { Pow2Bit(j - 1, i - 1); }
    } else if i > 0 {
      ZeroBit(i - 1);
    }
  }

  /** The complement within n bits. */
  lemma {:induction false} NotBit(x: nat, n: nat, i: nat)
    requires x < Pow2(n) && i < n
    ensures Pow2(n) - 1 - x >= 0 && (Bit(Pow2(n) - 1 - x, i) <==> !Bit(x, i))
    decreases n
  {
    var y := Pow2(n) - 1 - x;
    assert y % 2 == 1 - x % 2 && y / 2 == Pow2(n - 1) - 1 - x / 2;
    if i == 0 {
    } else {
      NotBit(x / 2, n - 1, i - 1);
    }
  }

  lemma {:induction false} OrBound(x: nat, y: nat, n: nat)
    requires x < Pow2(n) && y < Pow2(n)
    ensures Or(x, y) < Pow2(n)
    decreases n
  {
    if n == 0 || (x == 0 && y == 0) {
    } else {
      OrBound(x / 2, y / 2, n - 1);
    }
  }

  lemma {:induction false} AndBound(x: nat, y: nat)
    ensures And(x, y) <= x && And(x, y) <= y
    decreases x + y
  {
    if x == 0 && y == 0 {
    } else {
      AndBound(x / 2, y / 2);
    }
  }

  lemma {:induction false} NonzeroHasBit(x: nat) returns (i: nat)
    requires x != 0
    ensures Bit(x, i)
  {
    if x % 2 == 1 { i := 0; } else { i := NonzeroHasBit(x / 2); i := i + 1; }
  }

  /** Masking with a single bit tests that bit. */
  lemma TestsBit(x: nat, j: nat)
    ensures And(x, Pow2(j)) != 0 <==> Bit(x, j)
  {
    AndBit(x, Pow2(j), j);
    Pow2Bit(j, j);
    if And(x, Pow2(j)) != 0 {
      var i := NonzeroHasBit(And(x, Pow2(j)));
      AndBit(x, Pow2(j), i);
      Pow2Bit(j, i);
    }
    ZeroBit(j);
  }

  // ---------- bitmaps ----------

  type Bitmap = seq<Byte>

  predicate Has(s: Bitmap, k: nat) { k < 8 * |s| && Bit(s[k / 8], k % 8) }

  /** s and r differ at most in bit k, which is b in r. */
  ghost predicate Updated(s: Bitmap, k: nat, b: bool, r: Bitmap) {
    |r| == |s| && forall j: nat :: j < 8 * |s| ==> (Has(r, j) <==> if j == k then b else Has(s, j))
  }

  lemma Pow2Eight()
    ensures Pow2(8) == 256
  {
    assert Pow2(4) == 16;
    assert Pow2(8) == 16 * Pow2(4) by { assert Pow2(6) == 4 * Pow2(4); }
  }

  lemma {:induction false} Pow2Below(i: nat, n: nat)
    requires i < n
    ensures 2 * Pow2(i) <= Pow2(n)
    decreases n
  {
    if i == n - 1 {
    } else {
      Pow2Below(i, n - 1);
    }
  }

  function SetIn(x: Byte, i: nat): Byte
    requires i < 8
  {
    Pow2Eight(); Pow2Below(i, 8); OrBound(x, Pow2(i), 8);
    Or(x, Pow2(i))
  }

  function ClearIn(x: Byte, i: nat): Byte
    requires i < 8
  {
    Pow2Eight(); Pow2Below(i, 8); AndBound(x, 255 - Pow2(i));
    And(x, 255 - Pow2(i))
  }

  lemma SetInBits(x: Byte, i: nat, j: nat)
    requires i < 8 && j < 8
    ensures Bit(SetIn(x, i), j) <==> j == i || Bit(x, j)
  {
    OrBit(x, Pow2(i), j);
    Pow2Bit(i, j);
  }

  lemma ClearInBits(x: Byte, i: nat, j: nat)
    requires i < 8 && j < 8
    ensures Bit(ClearIn(x, i), j) <==> j != i && Bit(x, j)
  {
    Pow2Eight();
    Pow2Below(i, 8);
    AndBit(x, 255 - Pow2(i), j);
    NotBit(Pow2(i), 8, j);
    Pow2Bit(i, j);
  }

  /** Set or clear bit k of a bitmap. */
  function Put(s: Bitmap, k: nat, b: bool): (r: Bitmap)
    requires k < 8 * |s|
  {
    s[k / 8 := if b then SetIn(s[k / 8], k % 8) else ClearIn(s[k / 8], k % 8)]
  }

  lemma PutUpdates(s: Bitmap, k: nat, b: bool)
    requires k < 8 * |s|
    ensures Updated(s, k, b, Put(s, k, b))
  {
    forall j: nat | j < 8 * |s| ensures Has(Put(s, k, b), j) <==> if j == k then b else Has(s, j) {
      if b { SetInBits(s[k / 8], k % 8, j % 8); } else { ClearInBits(s[k / 8], k % 8, j % 8); }
    }
  }

  method SetBit(a: array<Byte>, k: nat)
    requires k < 8 * a.Length
    modifies a
    ensures a[..] == Put(old(a[..]), k, true)
  {
    a[k / 8] := SetIn(a[k / 8], k % 8);
  }

  method ClearBit(a: array<Byte>, k: nat)
    requires k < 8 * a.Length
    modifies a
    ensures a[..] == Put(old(a[..]), k, false)
  {
    a[k / 8] := ClearIn(a[k / 8], k % 8);
  }

  method TestBit(a: array<Byte>, k: nat) returns (r: bool)
    requires k < 8 * a.Length
    ensures r <==> Has(a[..], k)
  {
    TestsBit(a[k / 8], k % 8);
    r := And(a[k / 8], Pow2(k % 8)) != 0;
  }

  /** The lowest clear bit, or the number of bits if all are set. */
  ghost predicate IsFirstClear(s: Bitmap, f: nat) {
    && f <= 8 * |s| && (f < 8 * |s| ==> !Has(s, f))
    && forall j: nat :: j < f ==> Has(s, j)
  }

  lemma FirstClearUnique(s: Bitmap, f: nat, g: nat)
    requires IsFirstClear(s, f) && IsFirstClear(s, g)
    ensures f == g
  {
    assert f < g ==> Has(s, f);
    assert g < f ==> Has(s, g);
  }

  /** Set the lowest clear bit f and return f + 1.  A full bitmap is left alone and its number
      of bits is returned, which is also the answer for the last bit. */
  method TestAndSetBit(a: array<Byte>) returns (r: nat, ghost f: nat)
    modifies a
    ensures IsFirstClear(old(a[..]), f)
    ensures if f < 8 * a.Length then r == f + 1 && a[..] == Put(old(a[..]), f, true) else r == f && a[..] == old(a[..])
  {
    var i := 0;
    while i < a.Length * 8
      invariant 0 <= i <= a.Length * 8 && a[..] == old(a[..])
      invariant forall j: nat :: j < i ==> Has(a[..], j)
    {
      var taken := TestBit(a, i);
      if !taken {
        SetBit(a, i);
        return i + 1, i;
      }
      i := i + 1;
    }
    return i, i;
  }
}
