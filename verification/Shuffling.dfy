/** The shuffle of a list as a function of the random numbers, and which orders it can give. */
module Shuffling {
  import Arith

  function Exchanged<T>(s: seq<T>, i: nat, j: nat): seq<T>
    requires i < |s| && j < |s|
  {
    s[i := s[j]][j := s[i]]
  }

  /** Each element in turn changes places with one at or before it. */
  ghost function Shuffled<T>(s: seq<T>, rnd: seq<nat>): (r: seq<T>)
    requires |rnd| >= |s|
    ensures |r| == |s|
  {
    if s == [] then []
    else
      var n := |s| - 1;
      Exchanged(Shuffled(s[..n], rnd) + [s[n]], n, rnd[n] % (n + 1))
  }

  lemma ShuffledLast<T>(front: seq<T>, x: T, rnd: seq<nat>)
    requires |front| < |rnd|
    ensures var n := |front|;
            Shuffled(front + [x], rnd) == Exchanged(Shuffled(front, rnd) + [x], n, rnd[n] % (n + 1))
  {
    assert (front + [x])[..|front|] == front;
  }

  lemma ExchangeInFront<T>(s: seq<T>, t: seq<T>, i: nat, j: nat)
    requires i < |s| && j < |s|
    ensures Exchanged(s + t, i, j) == Exchanged(s, i, j) + t
  {
  }

  /** One round of the loop. */
  lemma ShuffleStep<T>(s: seq<T>, rnd: seq<nat>, i: nat)
    requires i < |s| <= |rnd|
    ensures Exchanged(Shuffled(s[..i], rnd) + s[i..], i, rnd[i] % (i + 1)) == Shuffled(s[..i + 1], rnd) + s[i + 1..]
  {
    hide Exchanged;
    var q := Shuffled(s[..i], rnd);
    assert s[..i + 1] == s[..i] + [s[i]] && q + s[i..] == q + [s[i]] + s[i + 1..];
    ShuffledLast(s[..i], s[i], rnd);
    hide Shuffled;
    ExchangeInFront(q + [s[i]], s[i + 1..], i, rnd[i] % (i + 1));
  }

  lemma ExchangeBack<T>(r: seq<T>, i: nat, j: nat)
    requires i < |r| && j < |r|
    ensures Exchanged(Exchanged(r, i, j), i, j) == r && multiset(Exchanged(r, i, j)) == multiset(r)
    ensures |Exchanged(r, i, j)| == |r| && Exchanged(r, i, j)[i] == r[j]
  {
  }

  lemma LastSame<T>(s: seq<T>, t: seq<T>)
    requires |s| == |t| > 0 && multiset(s) == multiset(t) && s[|s| - 1] == t[|t| - 1]
    ensures multiset(s[..|s| - 1]) == multiset(t[..|t| - 1])
  {
    var n := |s| - 1;
    assert s == s[..n] + [s[n]] && t == t[..n] + [t[n]];
    assert multiset(s[..n]) == multiset(s) - multiset{s[n]} && multiset(t[..n]) == multiset(t) - multiset{t[n]};
  }

  lemma {:induction false} ShuffledPrefix<T>(s: seq<T>, a: seq<nat>, b: seq<nat>)
    requires |s| <= |a| && |s| <= |b| && forall i :: 0 <= i < |s| ==> a[i] == b[i]
    ensures Shuffled(s, a) == Shuffled(s, b)
  {
    if s == [] {
    } else {
      ShuffledPrefix(s[..|s| - 1], a, b);
    }
  }

  /** The element that the last round has to bring to its place. */
  lemma Undo<T>(s: seq<T>, r: seq<T>) returns (j: nat, q: seq<T>)
    requires s != [] && |r| == |s| && multiset(r) == multiset(s)
    ensures j < |s| && |q| == |s| && q[|s| - 1] == s[|s| - 1] && Exchanged(q, |s| - 1, j) == r
    ensures multiset(q[..|s| - 1]) == multiset(s[..|s| - 1])
  {
    var n := |s| - 1;
    assert s[n] in multiset(r);
    j :| 0 <= j < |r| && r[j] == s[n];
    q := Exchanged(r, n, j);
    ExchangeBack(r, n, j);
    LastSame(q, s);
  }

  lemma Redo<T>(s: seq<T>, q: seq<T>, j: nat, rnd: seq<nat>)
    requires s != [] && |q| == |s| == |rnd| && q[|s| - 1] == s[|s| - 1] && rnd[|s| - 1] == j < |s|
    requires Shuffled(s[..|s| - 1], rnd) == q[..|s| - 1]
    ensures Shuffled(s, rnd) == Exchanged(q, |s| - 1, j)
  {
    var n := |s| - 1;
    Arith.ModUnique(j, n + 1, 0, j);
    assert q == q[..n] + [s[n]];
    hide Exchanged;
  }

  lemma SameLength<T>(s: seq<T>, r: seq<T>)
    requires multiset(r) == multiset(s)
    ensures |r| == |s|
  {
    assert |r| == |multiset(r)| && |s| == |multiset(s)|;
  }

  /** Every order of the elements is the outcome of some random numbers. */
  lemma {:induction false} EveryOrder<T>(s: seq<T>, r: seq<T>) returns (rnd: seq<nat>)
    requires multiset(r) == multiset(s)
    ensures |rnd| == |s| && Shuffled(s, rnd) == r
    decreases |s|
  {
    SameLength(s, r);
    if s == [] {
      rnd := [];
    } else {
      hide Exchanged;
      var n := |s| - 1;
      var j, q := Undo(s, r);
      var front := EveryOrder(s[..n], q[..n]);
      rnd := front + [j];
      ShuffledPrefix(s[..n], front, rnd);
      Redo(s, q, j, rnd);
    }
  }
}
