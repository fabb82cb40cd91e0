/**
  The shape of a radix tree as a value: every node is identified by its path, the
  concatenation of the prefixes from the root, and lists the prefixes of its children.
 */
module Trie {
  import opened Bytes
  import opened Options

  type Key = seq<Byte>

  datatype Leaf<V> = Leaf(key: Key, val: V)
  datatype Rec<V> = Rec(leaf: Option<Leaf<V>>, kids: seq<Key>)

  type Trie<V> = map<Key, Rec<V>>

  /** Edges are kept in the order of their labels, the first bytes of the children's prefixes. */
  ghost predicate KidsSorted(kids: seq<Key>) {
    && (forall i :: 0 <= i < |kids| ==> kids[i] != [])
    && (forall i, j :: 0 <= i < j < |kids| ==> kids[i][0] < kids[j][0])
  }

  /** Some child of the node at p lies on the way to q. */
  ghost predicate Covers<V>(t: Trie<V>, p: Key, q: Key)
    requires p in t
  {
    exists i :: 0 <= i < |t[p].kids| && p + t[p].kids[i] <= q
  }

  ghost predicate NodeOk<V>(t: Trie<V>, p: Key)
    requires p in t
  {
    && KidsSorted(t[p].kids)
    && (forall i :: 0 <= i < |t[p].kids| ==> p + t[p].kids[i] in t)
  }

  ghost predicate TrieOk<V>(t: Trie<V>) {
    && [] in t
    && (forall p {:trigger NodeOk(t, p)} :: p in t ==> NodeOk(t, p))
    && (forall p, q {:trigger Covers(t, p, q)} :: p in t && q in t && p < q ==> Covers(t, p, q))
  }

  /** Every leaf records the path that leads to it. */
  ghost predicate KeysOk<V>(t: Trie<V>) {
    forall p :: p in t && t[p].leaf.Some? ==> t[p].leaf.value.key == p
  }

  /** The map the tree stands for. */
  ghost function Model<V>(t: Trie<V>): map<Key, V> {
    map k | k in t && t[k].leaf.Some? :: t[k].leaf.value.val
  }

  // ---------- descending ----------

  ghost predicate HasKid(kids: seq<Key>, b: Byte) { exists i :: 0 <= i < |kids| && kids[i] != [] && kids[i][0] == b }

  lemma SameKid(kids: seq<Key>, i: nat, j: nat)
    requires KidsSorted(kids) && i < |kids| && j < |kids| && kids[i][0] == kids[j][0]
    ensures i == j
  {
  }

  lemma FirstByte(p: Key, kid: Key, q: Key)
    requires kid != [] && p + kid <= q
    ensures |p| < |q| && q[|p|] == kid[0] && kid <= q[|p|..]
  {
    assert q[|p|] == (p + kid)[|p|];
    assert q[..|p + kid|] == p + kid;
  }

  /** From a node at p, the nodes whose path continues with byte b are all below the one
      child labelled b; without such a child there are none. */
  lemma Descend<V>(t: Trie<V>, p: Key, q: Key)
    requires TrieOk(t) && p in t && q in t && p < q
    ensures NodeOk(t, p) && HasKid(t[p].kids, q[|p|])
    ensures forall i :: 0 <= i < |t[p].kids| && t[p].kids[i][0] == q[|p|] ==> p + t[p].kids[i] <= q
  {
    var kids := t[p].kids;
    assert Covers(t, p, q) && NodeOk(t, p);
    var j :| 0 <= j < |kids| && p + kids[j] <= q;
    FirstByte(p, kids[j], q);
    forall i | 0 <= i < |kids| && kids[i][0] == q[|p|] ensures p + kids[i] <= q { SameKid(kids, i, j); }
  }

  /** p + kid is the first node after p on the way to s. */
  ghost predicate FirstAfter<V>(t: Trie<V>, p: Key, s: Key, next: Key) {
    p < next <= s && next in t && forall q :: q in t && p < q <= s ==> next <= q
  }

  ghost predicate NoneAfter<V>(t: Trie<V>, p: Key, s: Key) { forall q :: q in t && p < q ==> !(q <= s) }

  lemma StepDown<V>(t: Trie<V>, p: Key, s: Key, i: nat)
    requires TrieOk(t) && p in t && NodeOk(t, p) && p < s && i < |t[p].kids| && t[p].kids[i][0] == s[|p|]
    ensures if t[p].kids[i] <= s[|p|..] then FirstAfter(t, p, s, p + t[p].kids[i]) else NoneAfter(t, p, s)
  {
    var kid := t[p].kids[i];
    assert p + s[|p|..] == s;
    forall q | q in t && p < q <= s ensures p + kid <= q && kid <= s[|p|..] {
      Descend(t, p, q);
      FirstByte(p, kid, q);
    }
  }

  lemma StepNowhere<V>(t: Trie<V>, p: Key, s: Key)
    requires TrieOk(t) && p in t && p < s && !HasKid(t[p].kids, s[|p|])
    ensures NoneAfter(t, p, s)
  {
    forall q | q in t && p < q ensures !(q <= s) { Descend(t, p, q); }
  }

  // ---------- changing a leaf ----------

  ghost function SetLeaf<V>(t: Trie<V>, p: Key, leaf: Option<Leaf<V>>): Trie<V>
    requires p in t
  {
    t[p := t[p].(leaf := leaf)]
  }

  lemma SetLeafOk<V>(t: Trie<V>, p: Key, leaf: Option<Leaf<V>>)
    requires TrieOk(t) && p in t
    ensures TrieOk(SetLeaf(t, p, leaf))
    ensures KeysOk(t) && (leaf.Some? ==> leaf.value.key == p) ==> KeysOk(SetLeaf(t, p, leaf))
    ensures Model(SetLeaf(t, p, leaf)) == if leaf.Some? then Model(t)[p := leaf.value.val] else Model(t) - {p}
  {
    var t' := SetLeaf(t, p, leaf);
    forall q | q in t' ensures NodeOk(t', q) { assert NodeOk(t, q); }
    forall a, b | a in t' && b in t' && a < b ensures Covers(t', a, b) { assert Covers(t, a, b); }
  }

  // ---------- adding a child ----------

  /** How many children have a label below b: where a binary search for b ends. */
  ghost function Place(kids: seq<Key>, b: Byte): (j: nat)
    requires KidsSorted(kids)
    ensures j <= |kids| && (forall i :: 0 <= i < j ==> kids[i][0] < b) && (forall i :: j <= i < |kids| ==>
              b <= kids[i][0])
  {
    if kids == [] then 0
    else if kids[|kids| - 1][0] < b then |kids|
    else Place(kids[..|kids| - 1], b)
  }

  lemma PlaceUnique(kids: seq<Key>, b: Byte, j: nat)
    requires KidsSorted(kids) && j <= |kids|
    requires (forall i :: 0 <= i < j ==> kids[i][0] < b) && (forall i :: j <= i < |kids| ==> b <= kids[i][0])
    ensures j == Place(kids, b)
  {
    var k := Place(kids, b);
    assert j < |kids| ==> b <= kids[j][0];
    assert k < |kids| ==> b <= kids[k][0];
  }

  /** kids with `kid` put in its place. */
  ghost function AddKid(kids: seq<Key>, kid: Key): seq<Key>
    requires kid != [] && KidsSorted(kids)
  {
    var j := Place(kids, kid[0]);
    kids[..j] + [kid] + kids[j..]
  }

  lemma AddKidOk(kids: seq<Key>, kid: Key)
    requires kid != [] && KidsSorted(kids) && !HasKid(kids, kid[0])
    ensures KidsSorted(AddKid(kids, kid))
    ensures forall x :: x in AddKid(kids, kid) <==> x in kids || x == kid
  {
    var j := Place(kids, kid[0]);
    var r := kids[..j] + [kid] + kids[j..];
    forall i | 0 <= i < |kids| ensures kids[i] != [] && kids[i][0] != kid[0] { assert kids[i] in kids; }
    forall i | 0 <= i < |r| ensures r[i] == if i < j then kids[i] else if i == j then kid else kids[i - 1] {
    }
    InMiddle(kids, j, kid);
  }

  lemma InMiddle(kids: seq<Key>, j: nat, kid: Key)
    requires j <= |kids|
    ensures forall x :: x in kids[..j] + [kid] + kids[j..] <==> x in kids || x == kid
  {
    assert kids == kids[..j] + kids[j..];
  }

  ghost function AddNode<V>(t: Trie<V>, p: Key, kid: Key, leaf: Leaf<V>): Trie<V>
    requires p in t && kid != [] && KidsSorted(t[p].kids)
  {
    t[p := t[p].(kids := AddKid(t[p].kids, kid))][p + kid := Rec(Some(leaf), [])]
  }

  /** Nothing in the tree continues p with the label of a missing child. */
  lemma NothingBelow<V>(t: Trie<V>, p: Key, kid: Key, q: Key)
    requires TrieOk(t) && p in t && kid != [] && !HasKid(t[p].kids, kid[0]) && q in t
    ensures !(p + kid <= q) && (p < q ==> !(q <= p + kid))
  {
    assert q <= p + kid && |p| < |q| ==> q[|p|] == (p + kid)[|p|];
    if p < q { Descend(t, p, q); }
    if p + kid <= q { FirstByte(p, kid, q); }
  }

  lemma CoversByMember<V>(t: Trie<V>, p: Key, kid: Key, q: Key)
    requires p in t && kid in t[p].kids && p + kid <= q
    ensures Covers(t, p, q)
  {
  }

  lemma AddNodeCovers<V>(t: Trie<V>, p: Key, kid: Key, leaf: Leaf<V>, a: Key, b: Key)
    requires TrieOk(t) && p in t && kid != [] && !HasKid(t[p].kids, kid[0])
    requires KidsSorted(t[p].kids)
    requires a in AddNode(t, p, kid, leaf) && b in AddNode(t, p, kid, leaf) && a < b
    ensures Covers(AddNode(t, p, kid, leaf), a, b)
  {
    var t' := AddNode(t, p, kid, leaf);
    AddKidOk(t[p].kids, kid);
    if b in t { NothingBelow(t, p, kid, b); }
    if a in t { NothingBelow(t, p, kid, a); }
    if a == p + kid {
      assert false;
    } else if b == p + kid && a == p {
      CoversByMember(t', p, kid, b);
    } else {
      var c := if b == p + kid then p else b;
      assert a < c by { if c != b { PrefixCompare(a, p, b); } }
      var i := CoveringKid(t, a, c);
      assert a + t[a].kids[i] <= b by { assert c <= b; }
      CoversByMember(t', a, t[a].kids[i], b);
    }
  }

  /** Two prefixes of one key are comparable. */
  lemma PrefixCompare(a: Key, p: Key, b: Key)
    requires a <= b && p <= b
    ensures a <= p || p < a
  {
    if |a| <= |p| { assert p[..|a|] == b[..|a|]; } else { assert a[..|p|] == b[..|p|]; }
  }

  lemma AddNodeOk<V>(t: Trie<V>, p: Key, kid: Key, leaf: Leaf<V>)
    requires TrieOk(t) && p in t && kid != [] && NodeOk(t, p) && !HasKid(t[p].kids, kid[0])
    ensures p + kid !in t && TrieOk(AddNode(t, p, kid, leaf))
    ensures KeysOk(t) && leaf.key == p + kid ==> KeysOk(AddNode(t, p, kid, leaf))
    ensures Model(AddNode(t, p, kid, leaf)) == Model(t)[p + kid := leaf.val]
  {
    var t' := AddNode(t, p, kid, leaf);
    if p + kid in t { NothingBelow(t, p, kid, p + kid); }
    AddKidOk(t[p].kids, kid);
    forall q | q in t' ensures NodeOk(t', q) {
      if q in t { assert NodeOk(t, q); }
      if q == p {
        forall i | 0 <= i < |t'[p].kids| ensures p + t'[p].kids[i] in t' { assert t'[p].kids[i] in t'[p].kids; }
      }
    }
    forall a, b | a in t' && b in t' && a < b ensures Covers(t', a, b) { AddNodeCovers(t, p, kid, leaf, a, b); }
  }

  // ---------- splitting a child ----------

  /** The i-th child of p keeps only its first k bytes for a new node; the rest becomes the
      prefix of the old child below it. */
  ghost function Split<V>(t: Trie<V>, p: Key, i: nat, k: nat): Trie<V>
    requires p in t && i < |t[p].kids| && 0 < k < |t[p].kids[i]|
  {
    var kid := t[p].kids[i];
    t[p := t[p].(kids := t[p].kids[i := kid[..k]])][p + kid[..k] := Rec(None, [kid[k..]])]
  }

  /** A node on the way to the split point, or past it, already lies past the old child. */
  lemma AroundSplit<V>(t: Trie<V>, p: Key, i: nat, k: nat, q: Key)
    requires TrieOk(t) && p in t && NodeOk(t, p) && i < |t[p].kids| && 0 < k < |t[p].kids[i]| && q in t
    ensures p + t[p].kids[i][..k] <= q ==> p + t[p].kids[i] <= q
    ensures p < q ==> !(q <= p + t[p].kids[i][..k])
  {
    var kid := t[p].kids[i];
    if p + kid[..k] <= q {
      FirstByte(p, kid[..k], q);
      Descend(t, p, q);
    } else if p < q <= p + kid[..k] {
      assert q[|p|] == (p + kid[..k])[|p|];
      Descend(t, p, q);
    }
  }

  lemma SplitCovers<V>(t: Trie<V>, p: Key, i: nat, k: nat, a: Key, b: Key)
    requires TrieOk(t) && p in t && NodeOk(t, p) && i < |t[p].kids| && 0 < k < |t[p].kids[i]|
    requires a in Split(t, p, i, k) && b in Split(t, p, i, k) && a < b
    ensures Covers(Split(t, p, i, k), a, b)
  {
    var t', kid := Split(t, p, i, k), t[p].kids[i];
    var mid := p + kid[..k];
    assert mid + kid[k..] == p + kid && mid <= p + kid;
    if a in t { AroundSplit(t, p, i, k, a); }
    if b in t { AroundSplit(t, p, i, k, b); }
    if a == mid {
      assert p + kid <= b;
      assert t'[mid].kids[0] == kid[k..];
    } else if b == mid && a == p {
      assert t'[p].kids[i] == kid[..k];
    } else {
      var c := if b == mid then p else b;
      assert a < c by { if c != b { PrefixCompare(a, p, b); } }
      var j := CoveringKid(t, a, c);
      assert c <= b;
      assert a + t'[a].kids[j] <= b by { if a == p && j == i { assert mid <= p + kid <= b; } }
    }
  }

  lemma SplitNodes<V>(t: Trie<V>, p: Key, i: nat, k: nat, q: Key)
    requires TrieOk(t) && p in t && NodeOk(t, p) && i < |t[p].kids| && 0 < k < |t[p].kids[i]|
    requires p + t[p].kids[i][..k] !in t && q in Split(t, p, i, k)
    ensures NodeOk(Split(t, p, i, k), q)
  {
    var t', kid := Split(t, p, i, k), t[p].kids[i];
    assert p + kid[..k] + kid[k..] == p + kid;
    if q in t { assert NodeOk(t, q); }
    if q == p {
      assert KidsSorted(t'[p].kids);
    }
  }

  lemma SplitOk<V>(t: Trie<V>, p: Key, i: nat, k: nat)
    requires TrieOk(t) && p in t && i < |t[p].kids| && 0 < k < |t[p].kids[i]|
    ensures p + t[p].kids[i][..k] !in t && TrieOk(Split(t, p, i, k)) && Model(Split(t, p, i, k)) == Model(t)
    ensures KeysOk(t) ==> KeysOk(Split(t, p, i, k))
  {
    var t', mid := Split(t, p, i, k), p + t[p].kids[i][..k];
    assert NodeOk(t, p);
    if mid in t { AroundSplit(t, p, i, k, mid); }
    forall q | q in t' ensures NodeOk(t', q) { SplitNodes(t, p, i, k, q); }
    forall a, b | a in t' && b in t' && a < b ensures Covers(t', a, b) { SplitCovers(t, p, i, k, a, b); }
  }

  /** After the split the rest of the searched key has no edge at the new node. */
  lemma SplitReady<V>(t: Trie<V>, p: Key, i: nat, k: nat, search: Key)
    requires TrieOk(t) && p in t && i < |t[p].kids| && 0 < k < |t[p].kids[i]| && k <= |search|
    requires t[p].kids[i][..k] == search[..k] && (k < |search| ==> t[p].kids[i][k] != search[k])
    ensures var t', pm := Split(t, p, i, k), p + t[p].kids[i][..k];
      && TrieOk(t') && Model(t') == Model(t) && (KeysOk(t) ==> KeysOk(t'))
      && p + search == pm + search[k..] && NodeOk(t', pm)
      && (search[k..] != [] ==> !HasKid(t'[pm].kids, search[k..][0]))
  {
    SplitOk(t, p, i, k);
    var t', pm := Split(t, p, i, k), p + t[p].kids[i][..k];
    assert NodeOk(t', pm) && search == search[..k] + search[k..];
  }

  // ---------- inserting a key ----------

  /** Where the descent of an insertion ends. */
  datatype Stop = Here | NoEdge | Partway(idx: nat, common: nat)

  /** Inserting s has to act at the node p, with `search` left over. */
  ghost predicate StopsAt<V>(t: Trie<V>, p: Key, s: Key, search: Key, stop: Stop) {
    && p in t && s == p + search && NodeOk(t, p)
    && match stop
       case Here => search == []
       case NoEdge => search != [] && !HasKid(t[p].kids, search[0])
       case Partway(i, k) =>
         && i < |t[p].kids| && 0 < k < |t[p].kids[i]| && k <= |search| && t[p].kids[i][..k] == search[..k]
         && (k < |search| ==> t[p].kids[i][k] != search[k])
  }

  lemma NoEdgeStops<V>(t: Trie<V>, p: Key, s: Key, search: Key)
    requires TrieOk(t) && p in t && s == p + search && search != [] && !HasKid(t[p].kids, search[0])
    ensures StopsAt(t, p, s, search, NoEdge) && s !in t
  {
    assert NodeOk(t, p) && s[|p|] == search[0];
    StepNowhere(t, p, s);
  }

  lemma PartwayStops<V>(t: Trie<V>, p: Key, s: Key, search: Key, i: nat, k: nat)
    requires TrieOk(t) && p in t && s == p + search && search != [] && i < |t[p].kids|
    requires t[p].kids[i] != [] && t[p].kids[i][0] == search[0]
    requires k <= |search| && k < |t[p].kids[i]| && t[p].kids[i][..k] == search[..k]
    requires k < |search| ==> t[p].kids[i][k] != search[k]
    ensures StopsAt(t, p, s, search, Partway(i, k)) && s !in t
  {
    var kid := t[p].kids[i];
    assert NodeOk(t, p) && s[|p|..] == search;
    assert !(kid <= search) by { if k < |search| { assert kid[k] != search[k]; } }
    StepDown(t, p, s, i);
  }

  /** The leaf is set at p, or a new child of p gets it when some of the key is left. */
  ghost predicate LeafPut<V>(t: Trie<V>, p: Key, rest: Key, leaf: Leaf<V>, t': Trie<V>) {
    && p in t && NodeOk(t, p) && (rest != [] ==> !HasKid(t[p].kids, rest[0]))
    && t' == if rest == [] then SetLeaf(t, p, Some(leaf)) else AddNode(t, p, rest, leaf)
  }

  /** The shape after inserting s where the descent has stopped. */
  ghost predicate InsertedAt<V>(t: Trie<V>, p: Key, search: Key, stop: Stop, s: Key, v: V, t': Trie<V>)
    requires StopsAt(t, p, s, search, stop)
  {
    match stop
    case Here => LeafPut(t, p, [], Leaf(if t[p].leaf.Some? then t[p].leaf.value.key else s, v), t')
    case NoEdge => LeafPut(t, p, search, Leaf(s, v), t')
    case Partway(i, k) => LeafPut(Split(t, p, i, k), p + t[p].kids[i][..k], search[k..], Leaf(s, v), t')
  }

  ghost predicate Inserted<V>(t: Trie<V>, s: Key, v: V, t': Trie<V>) {
    exists p, search, stop :: StopsAt(t, p, s, search, stop) && InsertedAt(t, p, search, stop, s, v, t')
  }

  lemma LeafPutModel<V>(t: Trie<V>, p: Key, rest: Key, leaf: Leaf<V>, t': Trie<V>)
    requires TrieOk(t) && LeafPut(t, p, rest, leaf, t')
    ensures Model(t') == Model(t)[p + rest := leaf.val]
    ensures KeysOk(t) && leaf.key == p + rest ==> KeysOk(t')
  {
    if rest == [] {
      assert p + rest == p;
      SetLeafOk(t, p, Some(leaf));
    } else {
      AddNodeOk(t, p, rest, leaf);
    }
  }

  /** Whatever the case, the map gains exactly the key. */
  lemma InsertedModel<V>(t: Trie<V>, p: Key, search: Key, stop: Stop, s: Key, v: V, t': Trie<V>)
    requires TrieOk(t) && KeysOk(t) && StopsAt(t, p, s, search, stop) && InsertedAt(t, p, search, stop, s, v, t')
    ensures KeysOk(t') && Model(t') == Model(t)[s := v]
  {
    match stop
    case Here =>
      assert p + [] == p == s;
      LeafPutModel(t, p, [], Leaf(if t[p].leaf.Some? then t[p].leaf.value.key else s, v), t');
    case NoEdge => LeafPutModel(t, p, search, Leaf(s, v), t');
    case Partway(i, k) =>
      SplitReady(t, p, i, k, search);
      LeafPutModel(Split(t, p, i, k), p + t[p].kids[i][..k], search[k..], Leaf(s, v), t');
  }

  // ---------- merging a node with its only child ----------

  /** The node at s, the j-th child of q, disappears and its only child takes its place. */
  ghost function Merge<V>(t: Trie<V>, q: Key, j: nat, s: Key): Trie<V>
    requires q in t && j < |t[q].kids| && s in t && |t[s].kids| == 1
  {
    (t - {s})[q := t[q].(kids := t[q].kids[j := t[q].kids[j] + t[s].kids[0]])]
  }

  ghost predicate CanMerge<V>(t: Trie<V>, q: Key, j: nat, s: Key) {
    && TrieOk(t) && q in t && j < |t[q].kids| && s in t && |t[s].kids| == 1
    && s == q + t[q].kids[j] && t[q].kids[j] != [] && t[s].leaf.None?
  }

  /** A node has only one parent. */
  lemma OneParent<V>(t: Trie<V>, q: Key, j: nat, a: Key, i: nat)
    requires TrieOk(t) && q in t && a in t && NodeOk(t, q) && NodeOk(t, a)
    requires j < |t[q].kids| && i < |t[a].kids| && q + t[q].kids[j] == a + t[a].kids[i]
    ensures a == q && i == j
  {
    var s := q + t[q].kids[j];
    FirstByte(q, t[q].kids[j], s);
    FirstByte(a, t[a].kids[i], s);
    PrefixCompare(a, q, s);
    if a < q {
      assert q[|a|] == s[|a|];
      Descend(t, a, q);
    } else if q < a {
      assert a[|q|] == s[|q|];
      Descend(t, q, a);
    } else {
      SameKid(t[q].kids, i, j);
    }
  }

  lemma LongerKid(kids: seq<Key>, j: nat, more: Key)
    requires KidsSorted(kids) && j < |kids|
    ensures KidsSorted(kids[j := kids[j] + more])
  {
  }

  lemma MergeNodes<V>(t: Trie<V>, q: Key, j: nat, s: Key, a: Key)
    requires CanMerge(t, q, j, s) && a in Merge(t, q, j, s)
    ensures NodeOk(Merge(t, q, j, s), a)
  {
    var t', more := Merge(t, q, j, s), t[s].kids[0];
    assert NodeOk(t, a) && NodeOk(t, q) && NodeOk(t, s);
    assert q + (t[q].kids[j] + more) == s + more;
    LongerKid(t[q].kids, j, more);
    forall i | 0 <= i < |t'[a].kids| ensures a + t'[a].kids[i] in t' {
      MergeKid(t, q, j, s, a, i);
    }
  }

  lemma MergeKid<V>(t: Trie<V>, q: Key, j: nat, s: Key, a: Key, i: nat)
    requires CanMerge(t, q, j, s) && a in Merge(t, q, j, s) && i < |t[a].kids|
    requires NodeOk(t, a) && NodeOk(t, q) && NodeOk(t, s)
    ensures a + Merge(t, q, j, s)[a].kids[i] in Merge(t, q, j, s)
  {
    if a == q && i == j {
      assert q + (t[q].kids[j] + t[s].kids[0]) == s + t[s].kids[0];
    } else if a + t[a].kids[i] == s {
      OneParent(t, q, j, a, i);
    }
  }

  lemma MergeCovers<V>(t: Trie<V>, q: Key, j: nat, s: Key, a: Key, b: Key)
    requires CanMerge(t, q, j, s) && a in Merge(t, q, j, s) && b in Merge(t, q, j, s) && a < b
    ensures Covers(Merge(t, q, j, s), a, b)
  {
    var t', more := Merge(t, q, j, s), t[s].kids[0];
    assert q + (t[q].kids[j] + more) == s + more;
    var i := CoveringKid(t, a, b);
    if a == q && i == j {
      assert s <= b && s != b;
      var z := CoveringKid(t, s, b);
    }
    assert a + t'[a].kids[i] <= b;
  }

  lemma CoveringKid<V>(t: Trie<V>, a: Key, b: Key) returns (i: nat)
    requires TrieOk(t) && a in t && b in t && a < b
    ensures i < |t[a].kids| && a + t[a].kids[i] <= b
  {
    assert Covers(t, a, b);
    i :| 0 <= i < |t[a].kids| && a + t[a].kids[i] <= b;
  }

  lemma MergeOk<V>(t: Trie<V>, q: Key, j: nat, s: Key)
    requires CanMerge(t, q, j, s)
    ensures TrieOk(Merge(t, q, j, s)) && Model(Merge(t, q, j, s)) == Model(t)
    ensures KeysOk(t) ==> KeysOk(Merge(t, q, j, s))
  {
    var t' := Merge(t, q, j, s);
    forall a | a in t' ensures NodeOk(t', a) { MergeNodes(t, q, j, s, a); }
    forall a, b | a in t' && b in t' && a < b ensures Covers(t', a, b) { MergeCovers(t, q, j, s, a, b); }
  }

  // ---------- the longest stored prefix ----------

  /** r is the longest stored key among those satisfying the bound: k < p, or k <= p when
      `closed`. */
  ghost predicate Best<V>(t: Trie<V>, p: Key, closed: bool, r: Option<Leaf<V>>) {
    && (r.Some? ==> Stored(t, r.value) && r.value.key <= p && (closed || r.value.key < p))
    && (forall k :: k in Model(t) && k <= p && (closed || k < p) ==> r.Some? && k <= r.value.key)
  }

  ghost predicate Stored<V>(t: Trie<V>, leaf: Leaf<V>) { leaf.key in Model(t) && Model(t)[leaf.key] == leaf.val }

  lemma BestVisit<V>(t: Trie<V>, p: Key, r: Option<Leaf<V>>)
    requires KeysOk(t) && p in t && Best(t, p, false, r)
    ensures Best(t, p, true, if t[p].leaf.Some? then t[p].leaf else r)
  {
    forall k | k in Model(t) && k <= p && k != p ensures k < p { }
  }

  lemma BestStep<V>(t: Trie<V>, p: Key, s: Key, next: Key, r: Option<Leaf<V>>)
    requires Best(t, p, true, r) && FirstAfter(t, p, s, next)
    ensures Best(t, next, false, r)
  {
    forall k | k in Model(t) && k < next ensures r.Some? && k <= r.value.key {
      PrefixCompare(k, p, next);
      assert k <= s;
    }
  }

  lemma BestEnd<V>(t: Trie<V>, p: Key, s: Key, r: Option<Leaf<V>>)
    requires Best(t, p, true, r) && p <= s && (p == s || NoneAfter(t, p, s))
    ensures Best(t, s, true, r)
  {
    forall k | k in Model(t) && k <= s ensures r.Some? && k <= r.value.key { PrefixCompare(k, p, s); }
  }

  // ---------- merging the root with its only child ----------

  /** What x is in u, c + x was in t. */
  ghost predicate ShiftedAt<V>(t: Trie<V>, c: Key, u: Trie<V>, x: Key) {
    (x in u <==> c + x in t) && (x in u ==> u[x] == t[c + x])
  }

  /** What is left when the root takes over its only child, whose prefix is c: every path
      loses that prefix, because lookups never compare the root's own prefix. */
  ghost predicate Shifted<V>(t: Trie<V>, c: Key, u: Trie<V>) {
    forall x {:trigger ShiftedAt(t, c, u, x)} :: ShiftedAt(t, c, u, x)
  }

  lemma Shift<V>(t: Trie<V>, c: Key) returns (u: Trie<V>)
    ensures Shifted(t, c, u)
  {
    u := map x | x in (set q | q in t && c <= q :: q[|c|..]) && c + x in t :: t[c + x];
    forall x {:trigger ShiftedAt(t, c, u, x)} ensures ShiftedAt(t, c, u, x) {
      if c + x in t { assert (c + x)[|c|..] == x; }
    }
  }

  lemma ShiftedIn<V>(t: Trie<V>, c: Key, u: Trie<V>)
    requires Shifted(t, c, u)
    ensures forall x {:trigger x in u} :: x in u ==> c + x in t
  {
    forall x {:trigger x in u} | x in u ensures c + x in t { assert ShiftedAt(t, c, u, x); }
  }

  lemma ShiftedOk<V>(t: Trie<V>, u: Trie<V>)
    requires TrieOk(t) && t[[]].kids != [] && t[[]].kids[0] in t && Shifted(t, t[[]].kids[0], u)
    ensures TrieOk(u)
  {
    var c := t[[]].kids[0];
    assert ShiftedAt(t, c, u, []) && c + [] == c;
    forall p {:trigger NodeOk(u, p)} | p in u ensures NodeOk(u, p) {
      assert ShiftedAt(t, c, u, p) && NodeOk(t, c + p);
      forall i | 0 <= i < |u[p].kids| ensures p + u[p].kids[i] in u {
        assert c + p + u[p].kids[i] == c + (p + u[p].kids[i]);
        assert ShiftedAt(t, c, u, p + u[p].kids[i]);
      }
    }
    forall p, q {:trigger Covers(u, p, q)} | p in u && q in u && p < q ensures Covers(u, p, q) {
      assert ShiftedAt(t, c, u, p) && ShiftedAt(t, c, u, q);
      var i := CoveringKid(t, c + p, c + q);
      assert c + p + u[p].kids[i] == c + (p + u[p].kids[i]);
      Uncons(c, p + u[p].kids[i], q);
    }
  }

  lemma ShiftedModel<V>(t: Trie<V>, c: Key, u: Trie<V>)
    requires Shifted(t, c, u)
    ensures forall x {:trigger x in Model(u)} :: x in Model(u) <==> c + x in Model(t)
    ensures forall x {:trigger x in Model(u)} :: x in Model(u) ==> Model(u)[x] == Model(t)[c + x]
  {
    forall x {:trigger x in Model(u)}
      ensures (x in Model(u) <==> c + x in Model(t)) && (x in Model(u) ==> Model(u)[x] == Model(t)[c + x])
    {
      assert ShiftedAt(t, c, u, x);
    }
  }

  lemma Uncons(c: Key, a: Key, b: Key)
    requires c + a <= c + b
    ensures a <= b
  {
    assert a == (c + a)[|c|..] && b == (c + b)[|c|..];
    assert (c + b)[..|c + a|] == c + a;
    assert b[..|a|] == (c + b)[|c|..|c| + |a|];
  }

  /** A nonempty finite set of keys never equals itself with a nonempty prefix removed. */
  lemma {:induction false} NoSelfShift(s: set<Key>, c: Key, k: Key)
    requires c != [] && (forall x :: x in s ==> c <= x) && (forall x :: x in s <==> c + x in s)
    ensures k !in s
    decreases |k|
  {
    if k !in s {
    } else {
      assert c + k[|c|..] == k;
      NoSelfShift(s, c, k[|c|..]);
    }
  }

  /** Deleting the empty key takes this turn when it is stored and the root has one child. */
  ghost predicate RootMerges<V>(t: Trie<V>, s: Key)
    requires [] in t
  {
    s == [] && t[[]].leaf.Some? && |t[[]].kids| == 1
  }

  /** And it goes wrong when other keys are stored. */
  ghost predicate Breaks<V>(t: Trie<V>, s: Key)
    requires [] in t
  {
    RootMerges(t, s) && |Model(t)| > 1
  }

  lemma OnlyChildPrefixes<V>(t: Trie<V>, k: Key)
    requires TrieOk(t) && |t[[]].kids| == 1 && k in t && k != []
    ensures t[[]].kids[0] <= k
  {
    var i := CoveringKid(t, [], k);
    assert [] + t[[]].kids[i] == t[[]].kids[0];
  }

  /** Removing a nonempty prefix that all keys share leaves the same keys only if there are none. */
  lemma ShiftKeepsKeys(keys: set<Key>, shifted: set<Key>, c: Key)
    requires c != [] && (forall k :: k in keys ==> c <= k) && (forall x :: x in shifted <==> c + x in keys)
    ensures shifted == keys <==> keys == {}
  {
    if shifted == keys {
      forall k ensures k !in keys { NoSelfShift(keys, c, k); }
    }
  }

  lemma {:induction false} ShiftCounts(keys: set<Key>, shifted: set<Key>, c: Key)
    requires (forall k :: k in keys ==> c <= k) && (forall x :: x in shifted <==> c + x in keys)
    ensures |shifted| == |keys|
    decreases |keys|
  {
    if keys == {} {
      if x :| x in shifted { assert c + x in keys; }
    } else {
      var k :| k in keys;
      var x := k[|c|..];
      assert k == c + x;
      forall y ensures y in shifted - {x} <==> c + y in keys - {k} { assert (c + y)[|c|..] == y; }
      ShiftCounts(keys - {k}, shifted - {x}, c);
    }
  }

  lemma SameModelSameKeys<V>(m: map<Key, V>, n: map<Key, V>)
    requires m == map[] || n == map[] || m.Keys != n.Keys
    ensures m == n <==> m.Keys == n.Keys
  {
  }

  /** The keys that remain are right after a root merge exactly when none remain; their number is. */
  lemma RootMergeModel<V>(t: Trie<V>, u: Trie<V>)
    requires TrieOk(t) && RootMerges(t, []) && Shifted(SetLeaf(t, [], None), t[[]].kids[0], u)
    ensures Model(u) == Model(t) - {[]} <==> |Model(t)| == 1
    ensures |Model(u)| == |Model(t)| - 1
  {
    var c, t0 := t[[]].kids[0], SetLeaf(t, [], None);
    assert NodeOk(t, []) && [] + c == c;
    SetLeafOk(t, [], None);
    ShiftedOk(t0, u);
    ShiftedModel(t0, t0[[]].kids[0], u);
    var keys := Model(t0).Keys;
    forall k | k in keys ensures c <= k { OnlyChildPrefixes(t0, k); }
    ShiftKeepsKeys(keys, Model(u).Keys, c);
    ShiftCounts(keys, Model(u).Keys, c);
    SameModelSameKeys(Model(u), Model(t0));
    assert Model(t).Keys == keys + {[]};
  }
}
