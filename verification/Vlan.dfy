/**
  The code of allocateVlan and releaseVlan between reading the bitmap and writing it back,
  which supplies the steps of the BitmapStore machine.
 */
module Vlan {
  import opened Options
  import opened Bytes
  import opened Bits
  import opened BitmapStore

  /** A fresh array of the VLAN bitmap's size holding what the store had, zeros if nothing. */
  method Fetch(got: Option<Bitmap>) returns (a: array<Byte>)
    requires got.Some? ==> |got.value| == VLAN_COUNT / 8
    ensures fresh(a) && a[..] == Base(BitmapStore.Vlan, got)
  {
    a := new Byte[VLAN_COUNT / 8](_ => 0);
    if got.Some? {
      var i := 0;
      while i < |got.value|
        invariant 0 <= i <= |got.value| && a[..i] == got.value[..i]
      {
        a[i] := got.value[i];
        i := i + 1;
      }
    }
  }

  method AllocateAttempt(got: Option<Bitmap>) returns (ok: bool, cur: Bitmap, next: Bitmap, vlan: nat)
    requires got.Some? ==> |got.value| == 512
    ensures cur == if got.Some? then got.value else seq(512, _ => 0)
    ensures ok <==> exists k: nat :: k < 4095 && !Has(Base(BitmapStore.Vlan, got), k)
    ensures if ok then 1 <= vlan <= 4095 && IsFirstClear(Base(BitmapStore.Vlan, got), vlan - 1) else vlan == 4096
    ensures Attempt(BitmapStore.Vlan, got,
              if ok then Trying(Base(BitmapStore.Vlan, got), cur, next, vlan) else Unavailable)
  {
    var c := Fetch(got);
    cur := c[..];
    var a := Fetch(got);
    ghost var f;
    vlan, f := TestAndSetBit(a);
    next := a[..];
    assert TakesBit(Base(BitmapStore.Vlan, got), f, next, vlan);
    assert f < 4095 ==> !Has(Base(BitmapStore.Vlan, got), f);
    if vlan >= VLAN_COUNT { return false, cur, next, VLAN_COUNT; }
    ok := true;
  }

  method ReleaseAttempt(got: Option<Bitmap>, vlan: nat) returns (cur: Bitmap, next: Bitmap)
    requires got.Some? ==> |got.value| == VLAN_COUNT / 8
    requires 1 <= vlan <= VLAN_COUNT
    ensures cur == Expected(BitmapStore.Vlan, got)
    ensures Release(BitmapStore.Vlan, got, vlan, Releasing(vlan, cur, next))
  {
    var c := Fetch(got);
    cur := c[..];
    var a := Fetch(got);
    ClearBit(a, vlan - 1);
    next := a[..];
  }
}
