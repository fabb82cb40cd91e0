/**
  VLAN tags and IP addresses are handed out by many daemons from bitmaps in a shared
  key-value store.  Each daemon reads the bitmap, changes its copy and writes it back with a
  compare-and-swap on the bytes, starting over when the value has changed in between.
  A session is one request for a number together with its later release.
 */
module BitmapStore {
  import opened Options
  import opened Bits

  const VLAN_COUNT: nat := 4096

  /** Which allocator: VLAN tags use a fixed bitmap, each IP subnet one of its own size. */
  datatype Kind = Vlan | Ip(bytes: nat)

  ghost function Size(c: Kind): nat { if c.Vlan? then VLAN_COUNT / 8 else c.bytes }

  datatype Session =
    | Idle
    | Unavailable
    | Trying(base: Bitmap, cur: Bitmap, next: Bitmap, pos: nat)
    | Holding(pos: nat)
    | Releasing(pos: nat, base: Bitmap, next: Bitmap)
    | Done

  datatype State = State(store: Option<Bitmap>, sessions: map<nat, Session>)

  datatype Step = RequestGet(i: nat) | RequestPut(i: nat) | ReleaseGet(i: nat) | ReleasePut(i: nat)

  ghost function Zeros(n: nat): Bitmap { seq(n, _ => 0) }

  /** The array a daemon works on: the stored one, or a new empty one. */
  ghost function Base(c: Kind, store: Option<Bitmap>): Bitmap {
    if store.Some? then store.value else Zeros(Size(c))
  }

  /** The value a daemon expects to replace.  For a missing key a VLAN request expects an
      array of zeros and an IP request an empty one. */
  ghost function Expected(c: Kind, store: Option<Bitmap>): Bitmap {
    if store.Some? then store.value else if c.Vlan? then Zeros(Size(c)) else []
  }

  /** The outcome of testAndSetBit. */
  ghost predicate TakesBit(base: Bitmap, f: nat, next: Bitmap, pos: nat) {
    && IsFirstClear(base, f)
    && (if f < 8 * |base| then next == Put(base, f, true) && pos == f + 1 else next == base && pos == f)
  }

  ghost predicate Full(base: Bitmap) { IsFirstClear(base, 8 * |base|) }

  /** The store writes when the key is missing or holds exactly the expected bytes. */
  ghost predicate Accepts(store: Option<Bitmap>, cur: Bitmap) { store.None? || store.value == cur }

  /** Where a session goes after reading the bitmap for a request. */
  ghost predicate Attempt(c: Kind, store: Option<Bitmap>, x: Session) {
    match x
    case Unavailable =>
      c.Vlan? && exists f: nat, next, pos: nat :: TakesBit(Base(c, store), f, next, pos) && pos >= VLAN_COUNT
    case Trying(base, cur, next, pos) =>
      && base == Base(c, store) && cur == Expected(c, store) && (exists f :: TakesBit(base, f, next, pos))
      && (c.Vlan? ==> pos < VLAN_COUNT)
    case _ => false
  }

  /** Where a session goes after reading the bitmap for a release.  The IP release of a missing
      key reports failure; the base address of a subnet, position 0, has no bit to clear. */
  ghost predicate Release(c: Kind, store: Option<Bitmap>, pos: nat, x: Session) {
    if c.Ip? && store.None? then x == Done
    else
      && 1 <= pos <= 8 * |Base(c, store)| && (c.Ip? ==> pos < 8 * |Base(c, store)|)
      && x == Releasing(pos, Base(c, store), Put(Base(c, store), pos - 1, false))
  }

  ghost predicate Next(c: Kind, s: State, step: Step, s': State) {
    && step.i in s.sessions && step.i in s'.sessions
    && var x := s.sessions[step.i];
       var x' := s'.sessions[step.i];
       && s'.sessions == s.sessions[step.i := x']
       && match step
          case RequestGet(_) => x.Idle? && s'.store == s.store && Attempt(c, s.store, x')
          case RequestPut(_) =>
            && x.Trying?
            && (if Accepts(s.store, x.cur) then s'.store == Some(x.next) && x' == Holding(x.pos)
                else s'.store == s.store && x' == Idle)
          case ReleaseGet(_) => x.Holding? && s'.store == s.store && Release(c, s.store, x.pos, x')
          case ReleasePut(_) =>
            && x.Releasing?
            && (if Accepts(s.store, x.base) then s'.store == Some(x.next) && x' == Done
                else s'.store == s.store && x' == Holding(x.pos))
  }

  ghost predicate Init(s: State) { s.store.None? && forall i :: i in s.sessions ==> s.sessions[i].Idle? }

  // ---------- the invariant ----------

  ghost predicate Owns(s: State, i: nat, pos: nat) {
    && i in s.sessions
    && ((s.sessions[i].Holding? && s.sessions[i].pos == pos) || (s.sessions[i].Releasing? && s.sessions[i].pos == pos))
  }

  ghost predicate Held(s: State, pos: nat) { exists i :: Owns(s, i, pos) }

  /** No two live grants share a number. */
  ghost predicate Unique(s: State) { forall i, j, pos: nat :: Owns(s, i, pos) && Owns(s, j, pos) ==> i == j }

  /** A bit is set exactly while its number is held. */
  ghost predicate Accurate(c: Kind, s: State) {
    && (forall i, pos: nat :: Owns(s, i, pos) ==> 1 <= pos <= 8 * Size(c) && Has(Base(c, s.store), pos - 1))
    && (forall k: nat :: Has(Base(c, s.store), k) ==> Held(s, k + 1))
  }

  ghost predicate SessionOk(c: Kind, store: Option<Bitmap>, x: Session) {
    match x
    case Trying(base, cur, next, pos) =>
      && |base| == Size(c) && (exists f :: TakesBit(base, f, next, pos))
      && (cur == base || (cur == [] && base == Zeros(Size(c)))) && (store.None? ==> base == Zeros(Size(c)))
      && (c.Vlan? ==> pos < VLAN_COUNT)
    case Holding(pos) => store.Some? && (c.Vlan? ==> pos < VLAN_COUNT)
    case Releasing(pos, base, next) =>
      && store.Some? && |base| == Size(c) && 1 <= pos <= 8 * |base| && next == Put(base, pos - 1, false)
      && (c.Vlan? ==> pos < VLAN_COUNT)
    case _ => true
  }

  ghost predicate Inv(c: Kind, s: State) {
    && (s.store.Some? ==> |s.store.value| == Size(c))
    && Unique(s) && Accurate(c, s)
    && forall i {:trigger s.sessions[i]} :: i in s.sessions ==> SessionOk(c, s.store, s.sessions[i])
  }

  /** A request whose write is accepted although the bitmap it read was full. */
  ghost predicate Overgrants(s: State, step: Step) {
    && step.RequestPut? && step.i in s.sessions && s.sessions[step.i].Trying?
    && Accepts(s.store, s.sessions[step.i].cur) && Full(s.sessions[step.i].base)
  }

  lemma {:induction false} ZerosClear(n: nat, k: nat)
    ensures !Has(Zeros(n), k)
  {
    if k < 8 * n { ZeroBit(k % 8); }
  }

  lemma InitInv(c: Kind, s: State)
    requires Init(s)
    ensures Inv(c, s)
  {
    forall k: nat ensures !Has(Base(c, s.store), k) { ZerosClear(Size(c), k); }
  }

  /** An accepted write replaces exactly the bitmap that the session had read. */
  lemma AcceptedBase(c: Kind, s: State, i: nat)
    requires Inv(c, s) && Size(c) > 0 && i in s.sessions && s.sessions[i].Trying? && Accepts(s.store, s.sessions[i].cur)
    ensures Base(c, s.store) == s.sessions[i].base
  {
    assert SessionOk(c, s.store, s.sessions[i]);
  }

  /** A step that neither writes nor changes who owns what. */
  lemma QuietInv(c: Kind, s: State, i: nat, s': State)
    requires Inv(c, s) && i in s.sessions && i in s'.sessions && s'.store == s.store
    requires s'.sessions == s.sessions[i := s'.sessions[i]] && SessionOk(c, s.store, s'.sessions[i])
    requires forall pos: nat :: Owns(s', i, pos) <==> Owns(s, i, pos)
    ensures Inv(c, s')
  {
    assert forall j, pos: nat :: Owns(s', j, pos) <==> Owns(s, j, pos);
    forall pos | Held(s, pos) ensures Held(s', pos) {
      var j :| Owns(s, j, pos);
      assert Owns(s', j, pos);
    }
  }

  /** A number that the store grants is fresh. */
  lemma GrantInv(c: Kind, s: State, i: nat, f: nat, s': State)
    requires Inv(c, s) && i in s.sessions && i in s'.sessions && !Owns(s, i, f + 1) && s.sessions[i].Trying?
    requires f < 8 * Size(c) && !Has(Base(c, s.store), f) && |Base(c, s.store)| == Size(c)
    requires s'.store == Some(Put(Base(c, s.store), f, true)) && (c.Vlan? ==> f + 1 < VLAN_COUNT)
    requires s'.sessions == s.sessions[i := Holding(f + 1)]
    ensures Inv(c, s')
  {
    PutUpdates(Base(c, s.store), f, true);
    assert forall j, pos: nat :: Owns(s', j, pos) <==> Owns(s, j, pos) || (j == i && pos == f + 1);
    forall k: nat | Has(Base(c, s'.store), k) ensures Held(s', k + 1) {
      if k == f {
        assert Owns(s', i, k + 1);
      } else {
        assert Held(s, k + 1);
        var j :| Owns(s, j, k + 1);
        assert Owns(s', j, k + 1);
      }
    }
  }

  lemma RevokeInv(c: Kind, s: State, i: nat, s': State)
    requires Inv(c, s) && i in s.sessions && i in s'.sessions && s.sessions[i].Releasing?
    requires s.store == Some(s.sessions[i].base)
    requires s'.store == Some(s.sessions[i].next) && s'.sessions == s.sessions[i := Done]
    ensures Inv(c, s')
  {
    var x := s.sessions[i];
    assert SessionOk(c, s.store, x) && Owns(s, i, x.pos);
    PutUpdates(x.base, x.pos - 1, false);
    assert forall j, pos: nat :: Owns(s', j, pos) <==> Owns(s, j, pos) && j != i;
    forall k: nat | Has(Base(c, s'.store), k) ensures Held(s', k + 1) {
      assert Has(Base(c, s.store), k) && k != x.pos - 1;
      assert Held(s, k + 1);
      var j :| Owns(s, j, k + 1);
      assert Owns(s', j, k + 1);
    }
  }

  lemma RequestPutInv(c: Kind, s: State, step: Step, s': State)
    requires Inv(c, s) && Size(c) > 0 && step.RequestPut? && Next(c, s, step, s') && !Overgrants(s, step)
    ensures Inv(c, s')
  {
    var i, x := step.i, s.sessions[step.i];
    assert SessionOk(c, s.store, x);
    if Accepts(s.store, x.cur) {
      AcceptedBase(c, s, i);
      var f: nat :| TakesBit(x.base, f, x.next, x.pos);
      GrantInv(c, s, i, f, s');
    } else {
      QuietInv(c, s, i, s');
    }
  }

  lemma {:induction false} StepInv(c: Kind, s: State, step: Step, s': State)
    requires Inv(c, s) && Size(c) > 0 && Next(c, s, step, s') && !Overgrants(s, step)
    ensures Inv(c, s')
  {
    var x := s.sessions[step.i];
    assert SessionOk(c, s.store, x);
    match step
    case RequestGet(i) => QuietInv(c, s, i, s');
    case RequestPut(_) => RequestPutInv(c, s, step, s');
    case ReleaseGet(i) => QuietInv(c, s, i, s');
    case ReleasePut(i) => if Accepts(s.store, x.base) { RevokeInv(c, s, i, s'); } else { QuietInv(c, s, i, s'); }
  }

  // ---------- whole runs ----------

  ghost predicate IsRun(c: Kind, run: seq<State>, steps: seq<Step>) {
    && |run| == |steps| + 1 && Init(run[0])
    && forall k {:trigger steps[k]} :: 0 <= k < |steps| ==> Next(c, run[k], steps[k], run[k + 1])
  }

  lemma {:induction false} RunInv(c: Kind, run: seq<State>, steps: seq<Step>, k: nat)
    requires Size(c) > 0 && IsRun(c, run, steps) && k <= |steps|
    requires forall j {:trigger steps[j]} :: 0 <= j < k ==> !Overgrants(run[j], steps[j])
    ensures Inv(c, run[k])
  {
    if k == 0 {
      InitInv(c, run[0]);
    } else {
      RunInv(c, run, steps, k - 1);
      StepInv(c, run[k - 1], steps[k - 1], run[k]);
    }
  }

  /** An overgrant hands out the number of the last bit a second time. */
  lemma OvergrantDuplicates(c: Kind, s: State, step: Step, s': State)
    requires Inv(c, s) && Size(c) > 0 && Next(c, s, step, s') && Overgrants(s, step)
    ensures c.Ip? && !Unique(s')
  {
    var i, x := step.i, s.sessions[step.i];
    assert SessionOk(c, s.store, x);
    AcceptedBase(c, s, i);
    var f: nat :| TakesBit(x.base, f, x.next, x.pos);
    FirstClearUnique(x.base, f, 8 * |x.base|);
    assert Has(Base(c, s.store), f - 1);
    assert Held(s, f - 1 + 1);
    var j :| Owns(s, j, f);
    assert Owns(s', j, f) && Owns(s', i, f) && i != j;
  }

  /** Whatever the interleaving of allocations and releases: VLAN tags lie in 1..4095, no two
      live grants share one, and bit v - 1 is set exactly while v is held. */
  lemma VlansAreUnique(run: seq<State>, steps: seq<Step>, k: nat)
    requires IsRun(Vlan, run, steps) && k <= |steps|
    ensures Unique(run[k])
    ensures forall i, v: nat :: Owns(run[k], i, v) ==> 1 <= v <= 4095
    ensures forall v: nat :: 1 <= v ==> (Has(Base(Vlan, run[k].store), v - 1) <==> Held(run[k], v))
  {
    forall j | 0 <= j < k ensures !Overgrants(run[j], steps[j]) { VlanNeverOvergrants(run, steps, j); }
    RunInv(Vlan, run, steps, k);
    HeldInRange(Vlan, run[k]);
  }

  /** v is the smallest number from 1 to `last` that nobody holds. */
  ghost predicate LowestFree(s: State, last: nat, v: nat) {
    1 <= v <= last && !Held(s, v) && forall u: nat :: 1 <= u < v ==> Held(s, u)
  }

  ghost predicate AllHeld(s: State, last: nat) { forall v: nat :: 1 <= v <= last ==> Held(s, v) }

  lemma FirstClear(s: Bitmap) returns (f: nat)
    ensures IsFirstClear(s, f)
  {
    f := 0;
    while f < 8 * |s| && Has(s, f)
      invariant f <= 8 * |s| && forall j: nat :: j < f ==> Has(s, j)
    {
      f := f + 1;
    }
  }

  lemma ClearIsFree(c: Kind, s: State, f: nat)
    requires Inv(c, s) && IsFirstClear(Base(c, s.store), f)
    ensures f <= 8 * Size(c) && AllHeld(s, f) && (f < 8 * Size(c) ==> LowestFree(s, f + 1, f + 1))
  {
    HeldInRange(c, s);
    forall v: nat | 1 <= v <= f ensures Held(s, v) { assert Has(Base(c, s.store), v - 1); }
  }

  /** Where a request for a VLAN goes in a state in which the bits are accurate. */
  lemma VlanAnswer(s: State, x: Session)
    requires Inv(Vlan, s) && Attempt(Vlan, s.store, x)
    ensures x.Unavailable? || x.Trying?
    ensures if x.Unavailable? then AllHeld(s, 4095) else LowestFree(s, 4095, x.pos)
  {
    var base := Base(Vlan, s.store);
    if x.Unavailable? {
      var f: nat, next, pos: nat :| TakesBit(base, f, next, pos) && pos >= VLAN_COUNT;
      ClearIsFree(Vlan, s, f);
    } else {
      var f: nat :| TakesBit(base, f, x.next, x.pos);
      ClearIsFree(Vlan, s, f);
    }
  }

  lemma VlanCanAnswer(s: State) returns (x: Session)
    requires Inv(Vlan, s)
    ensures Attempt(Vlan, s.store, x)
  {
    var base := Base(Vlan, s.store);
    var f := FirstClear(base);
    var next := if f < 8 * |base| then Put(base, f, true) else base;
    var pos := if f < 8 * |base| then f + 1 else f;
    assert TakesBit(base, f, next, pos);
    x := if pos >= VLAN_COUNT then Unavailable else Trying(base, Expected(Vlan, s.store), next, pos);
  }

  /** In every run a VLAN request is refused if and only if all of 1..4095 are held; otherwise it
      tries for the smallest one that is not.  It always gets one of these answers. */
  lemma VlanRefusedIff(run: seq<State>, steps: seq<Step>, k: nat, i: nat) returns (s': State)
    requires IsRun(Vlan, run, steps) && k <= |steps| && i in run[k].sessions && run[k].sessions[i].Idle?
    ensures Next(Vlan, run[k], RequestGet(i), s')
    ensures forall t :: Next(Vlan, run[k], RequestGet(i), t) ==>
              && (t.sessions[i].Unavailable? <==> AllHeld(run[k], 4095))
              && (!AllHeld(run[k], 4095) ==> t.sessions[i].Trying? && LowestFree(run[k], 4095, t.sessions[i].pos))
  {
    var s := run[k];
    forall j | 0 <= j < k ensures !Overgrants(run[j], steps[j]) { VlanNeverOvergrants(run, steps, j); }
    RunInv(Vlan, run, steps, k);
    var x := VlanCanAnswer(s);
    s' := s.(sessions := s.sessions[i := x]);
    forall t | Next(Vlan, s, RequestGet(i), t)
      ensures t.sessions[i].Unavailable? <==> AllHeld(s, 4095)
      ensures !AllHeld(s, 4095) ==> t.sessions[i].Trying? && LowestFree(s, 4095, t.sessions[i].pos)
    {
      VlanAnswer(s, t.sessions[i]);
    }
  }

  /** Positions of a subnet are granted lowest first, too, while no request has found it full. */
  lemma IpTriesLowest(c: Kind, run: seq<State>, steps: seq<Step>, k: nat, i: nat, s': State)
    requires c.Ip? && c.bytes > 0 && IsRun(c, run, steps) && NeverFull(run, steps) && k <= |steps|
    requires Next(c, run[k], RequestGet(i), s')
    ensures s'.sessions[i].Trying?
    ensures if AllHeld(run[k], 8 * c.bytes) then s'.sessions[i].pos == 8 * c.bytes
            else LowestFree(run[k], 8 * c.bytes, s'.sessions[i].pos)
  {
    RunInv(c, run, steps, k);
    var x := s'.sessions[i];
    var f: nat :| TakesBit(x.base, f, x.next, x.pos);
    ClearIsFree(c, run[k], f);
  }

  lemma {:induction false} VlanNeverOvergrants(run: seq<State>, steps: seq<Step>, k: nat)
    requires IsRun(Vlan, run, steps) && k < |steps|
    ensures !Overgrants(run[k], steps[k])
  {
    forall j | 0 <= j < k ensures !Overgrants(run[j], steps[j]) { VlanNeverOvergrants(run, steps, j); }
    RunInv(Vlan, run, steps, k);
    if Overgrants(run[k], steps[k]) { OvergrantDuplicates(Vlan, run[k], steps[k], run[k + 1]); }
  }

  lemma HeldInRange(c: Kind, s: State)
    requires Inv(c, s)
    ensures forall v: nat :: 1 <= v ==> (Has(Base(c, s.store), v - 1) <==> Held(s, v))
    ensures c.Vlan? ==> forall i, v: nat :: Owns(s, i, v) ==> 1 <= v < VLAN_COUNT
  {
    forall i, v: nat | Owns(s, i, v) ensures c.Vlan? ==> 1 <= v < VLAN_COUNT {
      assert SessionOk(c, s.store, s.sessions[i]);
    }
    forall v: nat | 1 <= v ensures Has(Base(c, s.store), v - 1) <==> Held(s, v) {
      assert Has(Base(c, s.store), v - 1) ==> Held(s, v - 1 + 1);
    }
  }

  /** No request of the run was accepted although the bitmap it read was full. */
  ghost predicate NeverFull(run: seq<State>, steps: seq<Step>)
    requires |run| > |steps|
  {
    forall k {:trigger steps[k]} :: 0 <= k < |steps| ==> !Overgrants(run[k], steps[k])
  }

  /** IP positions of a subnet stay unique through a run exactly when no accepted request had
      read a full bitmap; and then bit p - 1 is set exactly while position p is held. */
  lemma IpsAreUniqueIffNeverFull(c: Kind, run: seq<State>, steps: seq<Step>)
    requires c.Ip? && c.bytes > 0 && IsRun(c, run, steps)
    ensures (forall k :: 0 <= k < |run| ==> Unique(run[k])) <==> NeverFull(run, steps)
    ensures NeverFull(run, steps) ==>
            forall k, v: nat :: 0 <= k < |run| && 1 <= v ==>
              (Has(Base(c, run[k].store), v - 1) <==> Held(run[k], v))
  {
    if NeverFull(run, steps) {
      forall k | 0 <= k < |run|
        ensures Unique(run[k])
        ensures forall v: nat :: 1 <= v ==> (Has(Base(c, run[k].store), v - 1) <==> Held(run[k], v))
      {
        RunInv(c, run, steps, k);
        HeldInRange(c, run[k]);
      }
    } else {
      var k: nat :| k < |steps| && Overgrants(run[k], steps[k]);
      var j := FirstOvergrant(run, steps, k);
      RunInv(c, run, steps, j);
      OvergrantDuplicates(c, run[j], steps[j], run[j + 1]);
    }
  }

  lemma FirstOvergrant(run: seq<State>, steps: seq<Step>, k: nat) returns (j: nat)
    requires |run| == |steps| + 1 && k < |steps| && Overgrants(run[k], steps[k])
    ensures j < |steps| && Overgrants(run[j], steps[j])
    ensures forall m {:trigger steps[m]} :: 0 <= m < j ==> !Overgrants(run[m], steps[m])
  {
    if m: nat :| m < k && Overgrants(run[m], steps[m]) {
      j := FirstOvergrant(run, steps, m);
    } else {
      j := k;
    }
  }

  // ---------- a subnet that runs full ----------

  /** The first n sessions have been granted positions 1..n, one after the other. */
  ghost predicate Filled(c: Kind, s: State, n: nat) {
    && |Base(c, s.store)| == Size(c) && (forall k: nat :: Has(Base(c, s.store), k) <==> k < n)
    && (forall i: nat :: i in s.sessions <==> i <= 8 * Size(c))
    && forall i :: i in s.sessions ==> s.sessions[i] == if i < n then Holding(i + 1) else Idle
  }

  lemma Extend(c: Kind, run: seq<State>, steps: seq<Step>, step: Step, s': State)
    requires IsRun(c, run, steps) && Next(c, run[|steps|], step, s')
    ensures IsRun(c, run + [s'], steps + [step])
  {
    var run', steps' := run + [s'], steps + [step];
    forall k | 0 <= k < |steps'| ensures Next(c, run'[k], steps'[k], run'[k + 1]) {
      if k < |steps| { assert steps'[k] == steps[k]; }
    }
  }

  lemma FillOne(c: Kind, s: State, n: nat) returns (t: State, u: State)
    requires c.Ip? && n <= 8 * c.bytes && c.bytes > 0 && Filled(c, s, n)
    ensures Next(c, s, RequestGet(n), t) && Next(c, t, RequestPut(n), u)
    ensures n < 8 * c.bytes ==> Filled(c, u, n + 1)
    ensures Overgrants(t, RequestPut(n)) <==> n == 8 * c.bytes
  {
    var base := Base(c, s.store);
    var next := if n < 8 * |base| then Put(base, n, true) else base;
    var pos := if n < 8 * |base| then n + 1 else n;
    var x := Trying(base, Expected(c, s.store), next, pos);
    assert TakesBit(base, n, next, pos);
    t := s.(sessions := s.sessions[n := x]);
    u := State(Some(next), s.sessions[n := Holding(pos)]);
    assert u.sessions == t.sessions[n := Holding(pos)];
    if n < 8 * |base| { PutUpdates(base, n, true); }
  }

  ghost function AllIdle(n: nat): (r: map<nat, Session>)
    ensures forall i: nat :: i in r <==> i <= n
    ensures forall i :: i in r ==> r[i] == Idle
  {
    if n == 0 then map[0 := Idle] else AllIdle(n - 1)[n := Idle]
  }

  lemma {:induction false} Fill(c: Kind, n: nat) returns (run: seq<State>, steps: seq<Step>)
    requires c.Ip? && c.bytes > 0 && n <= 8 * c.bytes
    ensures IsRun(c, run, steps) && NeverFull(run, steps) && Filled(c, run[|steps|], n)
  {
    if n == 0 {
      var s := State(None, AllIdle(8 * c.bytes));
      forall k: nat ensures !Has(Base(c, s.store), k) { ZerosClear(c.bytes, k); }
      run, steps := [s], [];
    } else {
      run, steps := Fill(c, n - 1);
      var t, u := FillOne(c, run[|steps|], n - 1);
      Extend(c, run, steps, RequestGet(n - 1), t);
      run, steps := run + [t], steps + [RequestGet(n - 1)];
      Extend(c, run, steps, RequestPut(n - 1), u);
      run, steps := run + [u], steps + [RequestPut(n - 1)];
    }
  }

  /** Every subnet can be driven, by one request more than it has positions, into granting a
      position twice: a full bitmap is not an error for IP requests. */
  lemma FullSubnetGrantsTwice(c: Kind) returns (run: seq<State>, steps: seq<Step>)
    requires c.Ip? && c.bytes > 0
    ensures IsRun(c, run, steps) && !Unique(run[|steps|])
  {
    run, steps := Fill(c, 8 * c.bytes);
    var n := 8 * c.bytes;
    var t, u := FillOne(c, run[|steps|], n);
    Extend(c, run, steps, RequestGet(n), t);
    run, steps := run + [t], steps + [RequestGet(n)];
    Extend(c, run, steps, RequestPut(n), u);
    run, steps := run + [u], steps + [RequestPut(n)];
    assert Owns(u, n - 1, n) && Owns(u, n, n);
  }
}
