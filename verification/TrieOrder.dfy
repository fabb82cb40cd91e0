/**
  The order in which a walk of the radix tree visits its leaves.
 */
module TrieOrder {
  import opened Arith
  import opened Trie

  /** Byte-lexicographic order. */
  ghost predicate Less(a: Key, b: Key) {
    b != [] && (a == [] || a[0] < b[0] || (a[0] == b[0] && Less(a[1..], b[1..])))
  }

  lemma {:induction false} PrefixLess(p: Key, k: Key)
    requires p < k
    ensures Less(p, k)
  {
    if p == [] {
    } else {
      PrefixLess(p[1..], k[1..]);
    }
  }

  /** Keys that agree up to some place and differ there are ordered by that byte. */
  lemma {:induction false} BranchLess(a: Key, b: Key, n: nat)
    requires n < |a| && n < |b| && a[..n] == b[..n] && a[n] < b[n]
    ensures Less(a, b)
  {
    if n == 0 {
    } else {
      assert a[..n][0] == a[0] && b[..n][0] == b[0];
      assert a[1..][..n - 1] == a[..n][1..] && b[1..][..n - 1] == b[..n][1..];
      BranchLess(a[1..], b[1..], n - 1);
    }
  }

  /** No key is below itself, so a sorted list names each key once. */
  lemma {:induction false} LessIrreflexive(a: Key)
    ensures !Less(a, a)
  {
    if a == [] {
    } else {
      LessIrreflexive(a[1..]);
    }
  }

  ghost function Below<V>(t: Trie<V>, p: Key): set<Key> { set q | q in t && p <= q }

  lemma ChildBelow<V>(t: Trie<V>, p: Key, i: nat)
    requires TrieOk(t) && p in t && i < |t[p].kids|
    ensures NodeOk(t, p) && p + t[p].kids[i] in t && t[p].kids[i] != []
    ensures |Below(t, p + t[p].kids[i])| < |Below(t, p)|
  {
    assert NodeOk(t, p);
    var c := p + t[p].kids[i];
    Strictly(Below(t, c), Below(t, p), p);
  }

  lemma Strictly(a: set<Key>, b: set<Key>, x: Key)
    requires a <= b && x in b && x !in a
    ensures |a| < |b|
  {
    assert a <= b - {x};
    SubsetSize(a, b - {x});
  }

  /** The leaves at and below p: the node's own first, then those of each child in turn. */
  ghost function LeavesUnder<V>(t: Trie<V>, p: Key): seq<Leaf<V>>
    requires TrieOk(t) && p in t
    decreases |Below(t, p)|, |t[p].kids| + 1
  {
    (if t[p].leaf.Some? then [t[p].leaf.value] else []) + LeavesFrom(t, p, 0)
  }

  /** The leaves below the children of p from the i-th on. */
  ghost function LeavesFrom<V>(t: Trie<V>, p: Key, i: nat): seq<Leaf<V>>
    requires TrieOk(t) && p in t && i <= |t[p].kids|
    decreases |Below(t, p)|, |t[p].kids| - i
  {
    if i == |t[p].kids| then []
    else
      ChildBelow(t, p, i);
      LeavesUnder(t, p + t[p].kids[i]) + LeavesFrom(t, p, i + 1)
  }

  ghost predicate HasKey<V>(s: seq<Leaf<V>>, k: Key) { exists x :: 0 <= x < |s| && s[x].key == k }

  ghost predicate Sorted<V>(s: seq<Leaf<V>>) { forall x, y :: 0 <= x < y < |s| ==> Less(s[x].key, s[y].key) }

  /** No key is listed twice. */
  ghost predicate Once<V>(s: seq<Leaf<V>>) { forall x, y :: 0 <= x < y < |s| ==> s[x].key != s[y].key }

  lemma SortedOnce<V>(s: seq<Leaf<V>>)
    requires Sorted(s)
    ensures Once(s)
  {
    forall x, y | 0 <= x < y < |s| ensures s[x].key != s[y].key { LessIrreflexive(s[x].key); }
  }

  /** Key k lies below one of the children of p from the i-th on. */
  ghost predicate BelowKid<V>(t: Trie<V>, p: Key, i: nat, k: Key)
    requires p in t
  {
    exists j :: i <= j < |t[p].kids| && p + t[p].kids[j] <= k
  }

  /** s lists exactly the stored keys that extend p, with their values, once each and in order. */
  ghost predicate ListsUnder<V>(t: Trie<V>, p: Key, s: seq<Leaf<V>>) {
    && Sorted(s) && Once(s)
    && (forall x :: 0 <= x < |s| ==> Stored(t, s[x]) && p <= s[x].key)
    && (forall k :: k in Model(t) && p <= k ==> HasKey(s, k))
  }

  ghost predicate ListsFrom<V>(t: Trie<V>, p: Key, i: nat, s: seq<Leaf<V>>)
    requires p in t
  {
    && Sorted(s)
    && (forall x :: 0 <= x < |s| ==> Stored(t, s[x]) && BelowKid(t, p, i, s[x].key))
    && (forall k :: k in Model(t) && BelowKid(t, p, i, k) ==> HasKey(s, k))
  }

  lemma Append<V>(a: seq<Leaf<V>>, b: seq<Leaf<V>>)
    requires Sorted(a) && Sorted(b) && forall x, y :: 0 <= x < |a| && 0 <= y < |b| ==> Less(a[x].key, b[y].key)
    ensures Sorted(a + b)
    ensures forall k :: HasKey(a + b, k) <==> HasKey(a, k) || HasKey(b, k)
  {
    forall k | HasKey(a, k) ensures HasKey(a + b, k) {
      var x :| 0 <= x < |a| && a[x].key == k;
      assert (a + b)[x].key == k;
    }
    forall k | HasKey(b, k) ensures HasKey(a + b, k) {
      var x :| 0 <= x < |b| && b[x].key == k;
      assert (a + b)[|a| + x].key == k;
    }
  }

  /** Keys below an earlier child come before keys below a later one. */
  lemma KidsInOrder<V>(t: Trie<V>, p: Key, i: nat, a: Key, b: Key)
    requires p in t && KidsSorted(t[p].kids) && i < |t[p].kids| && p + t[p].kids[i] <= a && BelowKid(t, p, i + 1, b)
    ensures Less(a, b)
  {
    var j :| i + 1 <= j < |t[p].kids| && p + t[p].kids[j] <= b;
    FirstByte(p, t[p].kids[i], a);
    FirstByte(p, t[p].kids[j], b);
    assert a[..|p|] == p && b[..|p|] == p;
    BranchLess(a, b, |p|);
  }

  lemma {:induction false} FromLists<V>(t: Trie<V>, p: Key, i: nat)
    requires TrieOk(t) && KeysOk(t) && p in t && i <= |t[p].kids|
    ensures ListsFrom(t, p, i, LeavesFrom(t, p, i))
    decreases |Below(t, p)|, |t[p].kids| - i
  {
    if i == |t[p].kids| {
    } else {
      ChildBelow(t, p, i);
      var c := p + t[p].kids[i];
      UnderLists(t, c);
      FromLists(t, p, i + 1);
      var a, b := LeavesUnder(t, c), LeavesFrom(t, p, i + 1);
      forall x, y | 0 <= x < |a| && 0 <= y < |b| ensures Less(a[x].key, b[y].key) {
        KidsInOrder(t, p, i, a[x].key, b[y].key);
      }
      Append(a, b);
      forall k ensures BelowKid(t, p, i, k) <==> c <= k || BelowKid(t, p, i + 1, k) { }
    }
  }

  /** A walk from p visits exactly the stored keys that extend p, each once, in order. */
  lemma {:induction false} UnderLists<V>(t: Trie<V>, p: Key)
    requires TrieOk(t) && KeysOk(t) && p in t
    ensures ListsUnder(t, p, LeavesUnder(t, p))
    decreases |Below(t, p)|, |t[p].kids| + 1
  {
    FromLists(t, p, 0);
    OwnFirst(t, p, LeavesFrom(t, p, 0));
  }

  lemma OwnFirst<V>(t: Trie<V>, p: Key, rest: seq<Leaf<V>>)
    requires TrieOk(t) && KeysOk(t) && p in t && ListsFrom(t, p, 0, rest)
    ensures ListsUnder(t, p, Own(t, p) + rest)
  {
    var own := Own(t, p);
    forall y | 0 <= y < |rest| ensures p < rest[y].key && Less(p, rest[y].key) {
      BelowIsAfter(t, p, rest[y].key);
    }
    Append(own, rest);
    SortedOnce(own + rest);
    forall k | k in Model(t) && p <= k ensures HasKey(own + rest, k) {
      if k == p {
        assert own[0].key == p;
      } else {
        var j := CoveringKid(t, p, k);
        assert BelowKid(t, p, 0, k);
      }
    }
  }

  lemma BelowIsAfter<V>(t: Trie<V>, p: Key, k: Key)
    requires TrieOk(t) && p in t && BelowKid(t, p, 0, k)
    ensures p < k && Less(p, k)
  {
    var j :| 0 <= j < |t[p].kids| && p + t[p].kids[j] <= k;
    ChildBelow(t, p, j);
    PrefixLess(p, k);
  }

  // ---------- callbacks that may stop the walk ----------

  ghost predicate Stops<V>(s: seq<Leaf<V>>, stop: Leaf<V> -> bool) { exists x :: 0 <= x < |s| && stop(s[x]) }

  /** The part of s that is visited: up to and including the first leaf that stops the walk. */
  ghost function UpTo<V>(s: seq<Leaf<V>>, stop: Leaf<V> -> bool): seq<Leaf<V>> {
    if s == [] then [] else if stop(s[0]) then [s[0]] else [s[0]] + UpTo(s[1..], stop)
  }

  lemma {:induction false} UpToAppend<V>(a: seq<Leaf<V>>, b: seq<Leaf<V>>, stop: Leaf<V> -> bool)
    ensures UpTo(a + b, stop) == if Stops(a, stop) then UpTo(a, stop) else a + UpTo(b, stop)
    ensures Stops(a + b, stop) <==> Stops(a, stop) || Stops(b, stop)
  {
    StopsAppend(a, b, stop);
    if a == [] {
      assert a + b == b;
    } else {
      UpToAppend(a[1..], b, stop);
      assert (a + b)[1..] == a[1..] + b && a == [a[0]] + a[1..];
      StopsAppend([a[0]], a[1..], stop);
      assert Stops([a[0]], stop) <==> stop(a[0]) by { assert [a[0]][0] == a[0]; }
    }
  }

  lemma StopsAppend<V>(a: seq<Leaf<V>>, b: seq<Leaf<V>>, stop: Leaf<V> -> bool)
    ensures Stops(a + b, stop) <==> Stops(a, stop) || Stops(b, stop)
  {
    if x :| 0 <= x < |a| && stop(a[x]) { assert stop((a + b)[x]); }
    if x :| 0 <= x < |b| && stop(b[x]) { assert stop((a + b)[|a| + x]); }
  }

  lemma UpToNever<V>(s: seq<Leaf<V>>, stop: Leaf<V> -> bool)
    requires !Stops(s, stop)
    ensures UpTo(s, stop) == s
  {
    UpToAppend(s, [], stop);
    assert s + [] == s;
  }

  // ---------- walking under a prefix ----------

  lemma UnderSame<V>(t: Trie<V>, p: Key, q: Key, s: seq<Leaf<V>>)
    requires ListsUnder(t, q, s) && p <= q && forall k :: k in t && p <= k ==> q <= k
    ensures ListsUnder(t, p, s)
  {
  }

  lemma UnderNothing<V>(t: Trie<V>, p: Key)
    requires forall k :: k in t ==> !(p <= k)
    ensures ListsUnder(t, p, [])
  {
  }

  /** Below p, a prefix that ends inside the edge to a child has exactly that child under it;
      one that departs from the edge has nothing. */
  lemma WithinEdge<V>(t: Trie<V>, p: Key, i: nat, search: Key)
    requires TrieOk(t) && p in t && NodeOk(t, p) && search != [] && i < |t[p].kids| && t[p].kids[i][0] == search[0]
    requires !(t[p].kids[i] <= search)
    ensures if search <= t[p].kids[i]
            then p + search <= p + t[p].kids[i] && forall k :: k in t && p + search <= k ==> p + t[p].kids[i] <= k
            else forall k :: k in t ==> !(p + search <= k)
  {
    var kid := t[p].kids[i];
    forall k | k in t && p + search <= k ensures p + kid <= k && search <= kid {
      FirstByte(p, search, k);
      Descend(t, p, k);
      FirstByte(p, kid, k);
      PrefixCompare(search, kid, k[|p|..]);
    }
  }

  lemma NoEdgeNothing<V>(t: Trie<V>, p: Key, search: Key)
    requires TrieOk(t) && p in t && search != [] && !HasKid(t[p].kids, search[0])
    ensures forall k :: k in t ==> !(p + search <= k)
  {
    forall k | k in t ensures !(p + search <= k) { NothingBelow(t, p, search, k); }
  }

  /** What WalkPrefix lists when the prefix ends inside an edge, departs from it or has none. */
  lemma EdgeLists<V>(t: Trie<V>, p: Key, i: nat, search: Key)
    requires TrieOk(t) && KeysOk(t) && p in t && NodeOk(t, p) && search != [] && i < |t[p].kids|
    requires t[p].kids[i][0] == search[0] && !(t[p].kids[i] <= search)
    ensures p + t[p].kids[i] in t
    ensures ListsUnder(t, p + search, if search <= t[p].kids[i] then LeavesUnder(t, p + t[p].kids[i]) else [])
  {
    WithinEdge(t, p, i, search);
    if search <= t[p].kids[i] {
      UnderLists(t, p + t[p].kids[i]);
      UnderSame(t, p + search, p + t[p].kids[i], LeavesUnder(t, p + t[p].kids[i]));
    } else {
      UnderNothing(t, p + search);
    }
  }

  lemma NoEdgeLists<V>(t: Trie<V>, p: Key, search: Key)
    requires TrieOk(t) && p in t && search != [] && !HasKid(t[p].kids, search[0])
    ensures ListsUnder(t, p + search, [])
  {
    NoEdgeNothing(t, p, search);
    UnderNothing(t, p + search);
  }

  // ---------- walking along a path ----------

  ghost function Own<V>(t: Trie<V>, k: Key): seq<Leaf<V>> {
    if k in t && t[k].leaf.Some? then [t[k].leaf.value] else []
  }

  /** The stored prefixes of s, shortest first. */
  ghost function PathLeaves<V>(t: Trie<V>, s: Key): seq<Leaf<V>>
    decreases |s|
  {
    (if s == [] then [] else PathLeaves(t, s[..|s| - 1])) + Own(t, s)
  }

  /** Those visited before the node at p. */
  ghost function PathBefore<V>(t: Trie<V>, p: Key): seq<Leaf<V>> { if p == [] then [] else PathLeaves(t, p[..|p| - 1]) }

  ghost predicate ByLength<V>(s: seq<Leaf<V>>) { forall x, y :: 0 <= x < y < |s| ==> |s[x].key| < |s[y].key| }

  /** s lists exactly the stored prefixes of p, with their values, by increasing length. */
  ghost predicate ListsPath<V>(t: Trie<V>, p: Key, s: seq<Leaf<V>>) {
    && ByLength(s)
    && (forall x :: 0 <= x < |s| ==> Stored(t, s[x]) && s[x].key <= p)
    && (forall k :: k in Model(t) && k <= p ==> HasKey(s, k))
  }

  lemma {:induction false} PathLists<V>(t: Trie<V>, p: Key)
    requires KeysOk(t)
    ensures ListsPath(t, p, PathLeaves(t, p))
    decreases |p|
  {
    var before := PathBefore(t, p);
    if p == [] {
    } else {
      PathLists(t, p[..|p| - 1]);
    }
    PathOneMore(t, p, before);
  }

  lemma PathOneMore<V>(t: Trie<V>, p: Key, before: seq<Leaf<V>>)
    requires KeysOk(t) && if p == [] then before == [] else ListsPath(t, p[..|p| - 1], before)
    ensures ListsPath(t, p, before + Own(t, p))
  {
    var r := before + Own(t, p);
    forall x | 0 <= x < |before| ensures before[x].key <= p && |before[x].key| < |p| {
      ShorterPrefix(before[x].key, p);
    }
    forall k | k in Model(t) && k <= p ensures HasKey(r, k) {
      if k == p {
        assert r[|before|].key == k;
      } else {
        ShorterPrefix(k, p);
        var x :| 0 <= x < |before| && before[x].key == k;
        assert r[x].key == k;
      }
    }
  }

  lemma ShorterPrefix(k: Key, p: Key)
    requires p != []
    ensures k <= p[..|p| - 1] <==> k <= p && |k| < |p|
  {
  }

  lemma {:induction false} PathGrows<V>(t: Trie<V>, p: Key, s: Key)
    requires p <= s
    ensures PathLeaves(t, p) <= PathLeaves(t, s)
    decreases |s|
  {
    if p == s {
    } else {
      assert p <= s[..|s| - 1];
      PathGrows(t, p, s[..|s| - 1]);
    }
  }

  /** Between p and s nothing is visited when no node lies between. */
  lemma {:induction false} PathGap<V>(t: Trie<V>, p: Key, s: Key)
    requires p <= s && forall q :: q in t && p < q ==> !(q <= s)
    ensures PathLeaves(t, s) == PathLeaves(t, p)
    decreases |s|
  {
    if p == s {
    } else {
      var s' := s[..|s| - 1];
      assert p <= s' && s' <= s;
      PathGap(t, p, s');
    }
  }

  lemma PathNext<V>(t: Trie<V>, p: Key, s: Key, next: Key)
    requires FirstAfter(t, p, s, next)
    ensures PathBefore(t, next) == PathLeaves(t, p)
  {
    var n' := next[..|next| - 1];
    assert p <= n' && n' <= next;
    forall q | q in t && p < q ensures !(q <= n') { }
    PathGap(t, p, n');
  }

  /** A walk stopped by the last of the leaves it has visited. */
  lemma UpToStopped<V>(a: seq<Leaf<V>>, x: Leaf<V>, full: seq<Leaf<V>>, stop: Leaf<V> -> bool)
    requires !Stops(a, stop) && stop(x) && a + [x] <= full
    ensures UpTo(full, stop) == a + [x]
  {
    var rest := full[|a| + 1..];
    assert full == a + ([x] + rest);
    UpToAppend(a, [x] + rest, stop);
  }

  // ---------- one round of the recursive walk ----------

  lemma WalkOwn<V>(t: Trie<V>, p: Key, stop: Leaf<V> -> bool)
    requires TrieOk(t) && p in t
    ensures if t[p].leaf.Some? && stop(t[p].leaf.value)
      then UpTo(LeavesUnder(t, p), stop) == [t[p].leaf.value] && Stops(LeavesUnder(t, p), stop)
      else UpTo(LeavesUnder(t, p), stop) == Own(t, p) + UpTo(LeavesFrom(t, p, 0), stop)
           && (Stops(LeavesUnder(t, p), stop) <==> Stops(LeavesFrom(t, p, 0), stop))
  {
    UpToAppend(Own(t, p), LeavesFrom(t, p, 0), stop);
    if t[p].leaf.Some? && stop(t[p].leaf.value) { assert stop(Own(t, p)[0]); }
  }

  lemma WalkKid<V>(t: Trie<V>, p: Key, i: nat, stop: Leaf<V> -> bool)
    requires TrieOk(t) && p in t && i < |t[p].kids| && p + t[p].kids[i] in t
    ensures var sub := LeavesUnder(t, p + t[p].kids[i]);
      if Stops(sub, stop)
      then UpTo(LeavesFrom(t, p, i), stop) == UpTo(sub, stop) && Stops(LeavesFrom(t, p, i), stop)
      else UpTo(sub, stop) == sub && UpTo(LeavesFrom(t, p, i), stop) == sub + UpTo(LeavesFrom(t, p, i + 1), stop)
           && (Stops(LeavesFrom(t, p, i), stop) <==> Stops(LeavesFrom(t, p, i + 1), stop))
  {
    var sub := LeavesUnder(t, p + t[p].kids[i]);
    UpToAppend(sub, LeavesFrom(t, p, i + 1), stop);
    if !Stops(sub, stop) { UpToNever(sub, stop); }
  }

  /** The walk of the children of p has listed `out` of the leaves `from`, and goes on with the
      i-th child unless it has ended. */
  ghost predicate Walked<V>(t: Trie<V>, p: Key, i: nat, stop: Leaf<V> -> bool, from: seq<Leaf<V>>, out: seq<Leaf<V>>,
                            ended: bool)
    requires TrieOk(t) && p in t && i <= |t[p].kids|
  {
    if ended then UpTo(from, stop) == out && Stops(from, stop)
    else UpTo(from, stop) == out + UpTo(LeavesFrom(t, p, i), stop)
         && (Stops(from, stop) <==> Stops(LeavesFrom(t, p, i), stop))
  }

  lemma WalkedOne<V>(t: Trie<V>, p: Key, i: nat, stop: Leaf<V> -> bool, from: seq<Leaf<V>>, out: seq<Leaf<V>>,
                     sub: seq<Leaf<V>>, ended: bool)
    requires TrieOk(t) && p in t && i < |t[p].kids| && p + t[p].kids[i] in t && Walked(t, p, i, stop, from, out, false)
    requires var kid := LeavesUnder(t, p + t[p].kids[i]);
      sub == UpTo(kid, stop) && (ended <==> Stops(kid, stop))
    ensures Walked(t, p, i + 1, stop, from, out + sub, ended)
  {
    WalkKid(t, p, i, stop);
  }

  lemma WalkedAll<V>(t: Trie<V>, p: Key, i: nat, stop: Leaf<V> -> bool, from: seq<Leaf<V>>, out: seq<Leaf<V>>,
                     ended: bool)
    requires TrieOk(t) && p in t && i <= |t[p].kids| && Walked(t, p, i, stop, from, out, ended)
    requires i == |t[p].kids| || ended
    ensures out == UpTo(from, stop) && (ended <==> Stops(from, stop))
  {
    assert out + [] == out;
  }

  // ---------- what a walk has visited ----------

  /** The callback ended the walk at the last leaf of out, and not before. */
  ghost predicate StopsOnlyLast<V>(stop: Leaf<V> -> bool, out: seq<Leaf<V>>) {
    forall x :: 0 <= x < |out| - 1 ==> !stop(out[x])
  }

  ghost predicate Ended<V>(stop: Leaf<V> -> bool, out: seq<Leaf<V>>) { out != [] && stop(out[|out| - 1]) }

  /** out holds stored keys under p once each and in order, and all of them unless the callback
      ended the walk; then those that are missing come after the last one. */
  ghost predicate VisitsUnder<V>(t: Trie<V>, p: Key, stop: Leaf<V> -> bool, out: seq<Leaf<V>>) {
    && Sorted(out) && Once(out) && StopsOnlyLast(stop, out)
    && (forall x :: 0 <= x < |out| ==> Stored(t, out[x]) && p <= out[x].key)
    && (forall k :: k in Model(t) && p <= k ==> HasKey(out, k) || (Ended(stop, out) && Less(out[|out| - 1].key, k)))
  }

  /** The same for the stored prefixes of p, by length. */
  ghost predicate VisitsPath<V>(t: Trie<V>, p: Key, stop: Leaf<V> -> bool, out: seq<Leaf<V>>) {
    && ByLength(out) && Once(out) && StopsOnlyLast(stop, out)
    && (forall x :: 0 <= x < |out| ==> Stored(t, out[x]) && out[x].key <= p)
    && (forall k :: k in Model(t) && k <= p ==> HasKey(out, k) || (Ended(stop, out) && |out[|out| - 1].key| < |k|))
  }

  lemma {:induction false} UpToPrefix<V>(s: seq<Leaf<V>>, stop: Leaf<V> -> bool) returns (n: nat)
    ensures n <= |s| && UpTo(s, stop) == s[..n] && StopsOnlyLast(stop, s[..n])
    ensures n < |s| ==> n > 0 && stop(s[n - 1])
  {
    if s == [] {
      n := 0;
    } else if stop(s[0]) {
      n := 1;
    } else {
      n := UpToPrefix(s[1..], stop);
      n := n + 1;
      assert s[..n] == [s[0]] + s[1..][..n - 1];
    }
  }

  /** A key of the list is among the first n, or the walk ended before its leaf. */
  lemma FirstOrAfter<V>(s: seq<Leaf<V>>, n: nat, stop: Leaf<V> -> bool, k: Key) returns (x: nat)
    requires n <= |s| && HasKey(s, k) && (n < |s| ==> n > 0 && stop(s[n - 1]))
    ensures HasKey(s[..n], k) || (Ended(stop, s[..n]) && n <= x < |s| && s[x].key == k && s[..n][n - 1] == s[n - 1])
  {
    x :| 0 <= x < |s| && s[x].key == k;
    if x < n { assert s[..n][x].key == k; }
  }

  lemma MissedUnder<V>(full: seq<Leaf<V>>, n: nat, stop: Leaf<V> -> bool, k: Key)
    requires n <= |full| && Sorted(full) && HasKey(full, k) && (n < |full| ==> n > 0 && stop(full[n - 1]))
    ensures var out := full[..n];
            HasKey(out, k) || (Ended(stop, out) && Less(out[|out| - 1].key, k))
  {
    var x := FirstOrAfter(full, n, stop, k);
  }

  lemma MissedPath<V>(full: seq<Leaf<V>>, n: nat, stop: Leaf<V> -> bool, k: Key)
    requires n <= |full| && ByLength(full) && HasKey(full, k) && (n < |full| ==> n > 0 && stop(full[n - 1]))
    ensures var out := full[..n];
            HasKey(out, k) || (Ended(stop, out) && |out[|out| - 1].key| < |k|)
  {
    var x := FirstOrAfter(full, n, stop, k);
  }

  lemma TakeKeepsOrder<V>(s: seq<Leaf<V>>, n: nat)
    requires n <= |s|
    ensures Sorted(s) ==> Sorted(s[..n])
    ensures ByLength(s) ==> ByLength(s[..n])
    ensures forall x :: 0 <= x < n ==> s[..n][x] == s[x]
  {
  }

  lemma VisitedUnder<V>(t: Trie<V>, p: Key, full: seq<Leaf<V>>, stop: Leaf<V> -> bool)
    requires ListsUnder(t, p, full)
    ensures VisitsUnder(t, p, stop, UpTo(full, stop))
  {
    var n := UpToPrefix(full, stop);
    var out := full[..n];
    TakeKeepsOrder(full, n);
    SortedOnce(out);
    forall k | k in Model(t) && p <= k ensures HasKey(out, k) || (Ended(stop, out) && Less(out[|out| - 1].key, k)) {
      MissedUnder(full, n, stop, k);
    }
  }

  lemma VisitedPath<V>(t: Trie<V>, p: Key, full: seq<Leaf<V>>, stop: Leaf<V> -> bool)
    requires ListsPath(t, p, full)
    ensures VisitsPath(t, p, stop, UpTo(full, stop))
  {
    var n := UpToPrefix(full, stop);
    var out := full[..n];
    TakeKeepsOrder(full, n);
    forall k | k in Model(t) && k <= p ensures HasKey(out, k) || (Ended(stop, out) && |out[|out| - 1].key| < |k|) {
      MissedPath(full, n, stop, k);
    }
  }
}
