/**
  go-radix: a mutable compressed trie.  Ghost fields record the path of every node and the
  shape of the whole tree as a value; the operations are proved against that value.
 */
module Radix {
  import opened Bytes
  import opened Options
  import opened Trie
  import opened TrieOrder

  datatype Edge<V> = Edge(lab: Byte, node: Node<V>)

  class Node<V> {
    var leaf: Option<Leaf<V>>
    var prefix: Key
    var edges: seq<Edge<V>>

    constructor (leaf: Option<Leaf<V>>, prefix: Key)
      ensures this.leaf == leaf && this.prefix == prefix && edges == []
    {
      this.leaf, this.prefix, edges := leaf, prefix, [];
    }
  }

  /** sort.Search on the labels: the first edge whose label is not below b. */
  method FindEdge<V>(edges: seq<Edge<V>>, b: Byte) returns (idx: nat)
    requires forall i, j :: 0 <= i < j < |edges| ==> edges[i].lab < edges[j].lab
    ensures idx <= |edges| && (forall i :: 0 <= i < idx ==> edges[i].lab < b)
    ensures forall i :: idx <= i < |edges| ==> b <= edges[i].lab
  {
    var lo, hi := 0, |edges|;
    while lo < hi
      invariant 0 <= lo <= hi <= |edges|
      invariant forall i :: 0 <= i < lo ==> edges[i].lab < b
      invariant forall i :: hi <= i < |edges| ==> b <= edges[i].lab
    {
      var h := lo + (hi - lo) / 2;
      if edges[h].lab < b { lo := h + 1; } else { hi := h; }
    }
    idx := lo;
  }

  /** The length of the common prefix of two keys. */
  method CommonPrefix(a: Key, b: Key) returns (k: nat)
    ensures k <= |a| && k <= |b| && a[..k] == b[..k]
    ensures k < |a| && k < |b| ==> a[k] != b[k]
  {
    var max := if |b| < |a| then |b| else |a|;
    k := 0;
    while k < max
      invariant k <= max && a[..k] == b[..k]
    {
      if a[k] != b[k] { break; }
      k := k + 1;
    }
  }

  // ---------- how the nodes hang together, as a value ----------

  /** The fields of one node. */
  datatype Cell<V> = Cell(leaf: Option<Leaf<V>>, prefix: Key, edges: seq<Edge<V>>)

  ghost function CellOf<V>(n: Node<V>): Cell<V>
    reads n
  {
    Cell(n.leaf, n.prefix, n.edges)
  }

  /** `at` names the node with each path, `cells` the fields of that node. */
  datatype Links<V> = Links(at: map<Key, Node<V>>, cells: map<Key, Cell<V>>)

  ghost predicate EdgeLinked<V>(l: Links<V>, e: Edge<V>, p: Key, kid: Key) {
    && kid != [] && e.lab == kid[0]
    && p + kid in l.at && p + kid in l.cells && e.node == l.at[p + kid] && l.cells[p + kid].prefix == kid
  }

  ghost predicate NodeLinked<V>(l: Links<V>, t: Trie<V>, p: Key)
    requires p in l.cells && p in t
  {
    && l.cells[p].leaf == t[p].leaf && |l.cells[p].edges| == |t[p].kids|
    && forall i :: 0 <= i < |t[p].kids| ==> EdgeLinked(l, l.cells[p].edges[i], p, t[p].kids[i])
  }

  /** No node has two paths. */
  ghost predicate Distinct<V>(at: map<Key, Node<V>>, p: Key, q: Key) {
    p in at && q in at && at[p] == at[q] ==> p == q
  }

  /** The nodes realise exactly the trie t. */
  ghost predicate Linked<V>(l: Links<V>, t: Trie<V>) {
    && l.at.Keys == t.Keys && l.cells.Keys == t.Keys
    && (forall p, q {:trigger Distinct(l.at, p, q)} :: Distinct(l.at, p, q))
    && (forall p {:trigger NodeLinked(l, t, p)} :: p in t ==> NodeLinked(l, t, p))
  }

  ghost predicate Within<V>(at: map<Key, Node<V>>, ns: set<Node<V>>) {
    forall x {:trigger at[x]} :: x in at ==> at[x] in ns
  }

  ghost function WithLeaf<V>(l: Links<V>, p: Key, leaf: Option<Leaf<V>>): Links<V>
    requires p in l.cells
  {
    l.(cells := l.cells[p := l.cells[p].(leaf := leaf)])
  }

  lemma WithLeafLinked<V>(l: Links<V>, t: Trie<V>, p: Key, leaf: Option<Leaf<V>>)
    requires Linked(l, t) && p in t
    ensures Linked(WithLeaf(l, p, leaf), SetLeaf(t, p, leaf))
  {
    var l', t' := WithLeaf(l, p, leaf), SetLeaf(t, p, leaf);
    forall q {:trigger NodeLinked(l', t', q)} | q in t' ensures NodeLinked(l', t', q) {
      assert NodeLinked(l, t, q);
      forall i | 0 <= i < |t'[q].kids| ensures EdgeLinked(l', l'.cells[q].edges[i], q, t'[q].kids[i]) {
        assert EdgeLinked(l, l.cells[q].edges[i], q, t[q].kids[i]);
      }
    }
  }

  lemma NewNodeDistinct<V>(at: map<Key, Node<V>>, p: Key, c: Node<V>)
    requires c !in at.Values && forall a, b {:trigger Distinct(at, a, b)} :: Distinct(at, a, b)
    ensures forall a, b {:trigger Distinct(at[p := c], a, b)} :: Distinct(at[p := c], a, b)
  {
    forall a, b {:trigger Distinct(at[p := c], a, b)} ensures Distinct(at[p := c], a, b) {
      assert Distinct(at, a, b);
    }
  }

  ghost function WithChild<V>(l: Links<V>, p: Key, j: nat, c: Node<V>, search: Key, leaf: Leaf<V>): Links<V>
    requires p in l.cells && j <= |l.cells[p].edges| && search != []
  {
    var es := l.cells[p].edges;
    Links(l.at[p + search := c],
          l.cells[p := l.cells[p].(edges := es[..j] + [Edge(search[0], c)] + es[j..])]
                 [p + search := Cell(Some(leaf), search, [])])
  }

  lemma WithChildLinked<V>(l: Links<V>, t: Trie<V>, p: Key, c: Node<V>, search: Key, leaf: Leaf<V>)
    requires Linked(l, t) && TrieOk(t) && p in t && NodeOk(t, p) && search != [] && p + search !in t
             && c !in l.at.Values
    requires |l.cells[p].edges| == |t[p].kids|
    ensures Linked(WithChild(l, p, Place(t[p].kids, search[0]), c, search, leaf), AddNode(t, p, search, leaf))
  {
    var l', t' := WithChild(l, p, Place(t[p].kids, search[0]), c, search, leaf), AddNode(t, p, search, leaf);
    NewNodeDistinct(l.at, p + search, c);
    forall q {:trigger NodeLinked(l', t', q)} | q in t' ensures NodeLinked(l', t', q) {
      if q != p + search {
        assert NodeLinked(l, t, q);
        forall i | 0 <= i < |t'[q].kids| ensures EdgeLinked(l', l'.cells[q].edges[i], q, t'[q].kids[i]) {
          ChildEdgeLinked(l, t, p, c, search, leaf, q, i);
        }
      }
    }
  }

  lemma ChildEdgeLinked<V>(l: Links<V>, t: Trie<V>, p: Key, c: Node<V>, search: Key, leaf: Leaf<V>, q: Key, i: nat)
    requires p in t && p in l.cells && NodeOk(t, p) && search != [] && p + search !in t
    requires |l.cells[p].edges| == |t[p].kids| && l.at.Keys == t.Keys && l.cells.Keys == t.Keys
    requires q in t && NodeLinked(l, t, q) && i < |AddNode(t, p, search, leaf)[q].kids|
    ensures var l' := WithChild(l, p, Place(t[p].kids, search[0]), c, search, leaf);
      i < |l'.cells[q].edges| && EdgeLinked(l', l'.cells[q].edges[i], q, AddNode(t, p, search, leaf)[q].kids[i])
  {
    var j := Place(t[p].kids, search[0]);
    var i' := if q == p && i > j then i - 1 else i;
    if !(q == p && i == j) { assert EdgeLinked(l, l.cells[q].edges[i'], q, t[q].kids[i']); }
  }

  /** The i-th child of p gets a new parent holding its first k bytes. */
  ghost function WithSplit<V>(l: Links<V>, p: Key, i: nat, kid: Key, k: nat, mid: Node<V>): Links<V>
    requires p in l.cells && i < |l.cells[p].edges| && 0 < k < |kid| && p + kid in l.cells
  {
    var es := l.cells[p].edges;
    Links(l.at[p + kid[..k] := mid],
          l.cells[p := l.cells[p].(edges := es[i := Edge(kid[0], mid)])]
                 [p + kid := l.cells[p + kid].(prefix := kid[k..])]
                 [p + kid[..k] := Cell(None, kid[..k], [Edge(kid[k], es[i].node)])])
  }

  lemma WithSplitLinked<V>(l: Links<V>, t: Trie<V>, p: Key, i: nat, k: nat, mid: Node<V>)
    requires Linked(l, t) && TrieOk(t) && p in t && NodeOk(t, p) && i < |t[p].kids| == |l.cells[p].edges|
    requires 0 < k < |t[p].kids[i]| && p + t[p].kids[i] in l.cells
    requires p + t[p].kids[i][..k] !in t && mid !in l.at.Values
    ensures Linked(WithSplit(l, p, i, t[p].kids[i], k, mid), Split(t, p, i, k))
  {
    var kid := t[p].kids[i];
    var l', t' := WithSplit(l, p, i, kid, k, mid), Split(t, p, i, k);
    NewNodeDistinct(l.at, p + kid[..k], mid);
    assert p + kid[..k] + kid[k..] == p + kid;
    assert NodeLinked(l, t, p);
    assert EdgeLinked(l, l.cells[p].edges[i], p, kid);
    forall q {:trigger NodeLinked(l', t', q)} | q in t' ensures NodeLinked(l', t', q) {
      if q != p + kid[..k] {
        assert NodeLinked(l, t, q) && NodeOk(t, q);
        forall x | 0 <= x < |t'[q].kids| ensures EdgeLinked(l', l'.cells[q].edges[x], q, t'[q].kids[x]) {
          assert EdgeLinked(l, l.cells[q].edges[x], q, t[q].kids[x]);
          if q + t[q].kids[x] == p + kid { OneParent(t, p, i, q, x); }
        }
      }
    }
  }

  /** The node at s takes over its only child. */
  ghost function WithMerge<V>(l: Links<V>, s: Key, more: Key): Links<V>
    requires s in l.cells && s in l.at && s + more in l.cells
  {
    var c := l.cells[s + more];
    Links((l.at - {s})[s + more := l.at[s]], (l.cells - {s})[s + more := c.(prefix := l.cells[s].prefix + c.prefix)])
  }

  lemma WithMergeLinked<V>(l: Links<V>, t: Trie<V>, q: Key, j: nat, s: Key)
    requires Linked(l, t) && CanMerge(t, q, j, s) && s + t[s].kids[0] in t && t[s].kids[0] != []
    ensures Linked(WithMerge(l, s, t[s].kids[0]), Merge(t, q, j, s))
  {
    var more := t[s].kids[0];
    var l', t' := WithMerge(l, s, more), Merge(t, q, j, s);
    assert NodeLinked(l, t, q) && NodeLinked(l, t, s);
    assert EdgeLinked(l, l.cells[q].edges[j], q, t[q].kids[j]);
    assert EdgeLinked(l, l.cells[s].edges[0], s, more);
    assert q + (t[q].kids[j] + more) == s + more;
    forall a, b {:trigger Distinct(l'.at, a, b)} ensures Distinct(l'.at, a, b) {
      assert Distinct(l.at, if a == s + more then s else a, if b == s + more then s else b);
    }
    forall a {:trigger NodeLinked(l', t', a)} | a in t' ensures NodeLinked(l', t', a) {
      assert NodeLinked(l, t, a) && NodeOk(t, a);
      forall i | 0 <= i < |t'[a].kids| ensures EdgeLinked(l', l'.cells[a].edges[i], a, t'[a].kids[i]) {
        MergeEdgeLinked(l, t, q, j, s, a, i);
      }
    }
  }

  lemma MergeEdgeLinked<V>(l: Links<V>, t: Trie<V>, q: Key, j: nat, s: Key, a: Key, i: nat)
    requires Linked(l, t) && CanMerge(t, q, j, s) && s + t[s].kids[0] in t && t[s].kids[0] != []
    requires a in t && a != s && i < |t[a].kids| && NodeLinked(l, t, a) && NodeLinked(l, t, s) && NodeOk(t, a)
    ensures EdgeLinked(WithMerge(l, s, t[s].kids[0]), l.cells[a].edges[i], a, Merge(t, q, j, s)[a].kids[i])
  {
    var more := t[s].kids[0];
    assert NodeOk(t, q) && NodeOk(t, s);
    assert EdgeLinked(l, l.cells[a].edges[i], a, t[a].kids[i]);
    assert EdgeLinked(l, l.cells[s].edges[0], s, more);
    if a == q && i == j {
      assert q + (t[q].kids[j] + more) == s + more;
    } else {
      if a + t[a].kids[i] == s { OneParent(t, q, j, a, i); }
      if a + t[a].kids[i] == s + more { OneParent(t, s, 0, a, i); }
    }
  }

  /** The root takes over its only child, whose path is c; u is the shape that results. */
  ghost predicate Reseated<V>(l: Links<V>, u: Trie<V>, c: Key, l': Links<V>)
    requires [] in l.at && [] in l.cells && c in l.cells
  {
    && l'.at.Keys == u.Keys && l'.cells.Keys == u.Keys
    && (forall x {:trigger l.at[c + x]} :: x in u && x != [] ==> c + x in l.at && l'.at[x] == l.at[c + x])
    && (forall x {:trigger l.cells[c + x]} :: x in u && x != [] ==> c + x in l.cells && l'.cells[x] == l.cells[c + x])
    && [] in u && l'.at[[]] == l.at[[]] && l'.cells[[]] == l.cells[c].(prefix := l.cells[[]].prefix + l.cells[c].prefix)
  }

  /** Everything is in place for the root to take over its first child c. */
  ghost predicate Reseatable<V>(l: Links<V>, t: Trie<V>, c: Key, u: Trie<V>) {
    Linked(l, t) && TrieOk(t) && c in t && c != [] && Shifted(t, c, u) && [] in u
  }

  lemma ReseatedLinked<V>(l: Links<V>, t: Trie<V>, c: Key, u: Trie<V>, l': Links<V>)
    requires Reseatable(l, t, c, u) && Reseated(l, u, c, l')
    ensures Linked(l', u)
  {
    assert c + [] == c;
    forall a, b {:trigger Distinct(l'.at, a, b)} ensures Distinct(l'.at, a, b) {
      assert Distinct(l.at, if a == [] then [] else c + a, if b == [] then [] else c + b);
      assert ShiftedAt(t, c, u, a) && ShiftedAt(t, c, u, b);
      assert (c + a)[|c|..] == a && (c + b)[|c|..] == b;
    }
    forall p {:trigger NodeLinked(l', u, p)} | p in u ensures NodeLinked(l', u, p) {
      assert ShiftedAt(t, c, u, p);
      assert NodeLinked(l, t, c + p) && NodeOk(t, c + p);
      forall i | 0 <= i < |u[p].kids| ensures EdgeLinked(l', l'.cells[p].edges[i], p, u[p].kids[i]) {
        var kid := u[p].kids[i];
        assert EdgeLinked(l, l.cells[c + p].edges[i], c + p, kid);
        assert c + p + kid == c + (p + kid);
        assert ShiftedAt(t, c, u, p + kid);
        assert l'.at[p + kid] == l.at[c + (p + kid)] && l'.cells[p + kid] == l.cells[c + (p + kid)];
      }
    }
  }

  /** The shape and the facts the root needs to take over its first child. */
  lemma ReseatReady<V>(l: Links<V>, t: Trie<V>) returns (u: Trie<V>)
    requires Linked(l, t) && TrieOk(t) && t[[]].kids != [] && t[[]].kids[0] != [] && t[[]].kids[0] in t
    ensures Reseatable(l, t, t[[]].kids[0], u) && TrieOk(u)
  {
    var p := t[[]].kids[0];
    u := Shift(t, p);
    assert ShiftedAt(t, p, u, []) && p + [] == p;
    ShiftedOk(t, u);
  }

  // ---------- the tree ----------

  class Tree<V> {
    var root: Node<V>
    var size: nat
    ghost var at: map<Key, Node<V>>     // the node with each path
    ghost var t: Trie<V>                // the shape of the tree

    ghost function L(): Links<V>
      reads this`at, at.Values
    {
      Links(at, map p | p in at :: CellOf(at[p]))
    }

    ghost predicate Ok()
      reads this`at, this`t, this`root, at.Values
    {
      TrieOk(t) && [] in at && root == at[[]] && Linked(L(), t)
    }

    /** The tree is well formed and counts its keys. */
    ghost predicate Valid()
      reads this, at.Values
    {
      Ok() && size == |Model(t)|
    }

    constructor ()
      ensures Valid() && KeysOk(t) && t == map[[] := Rec(None, [])] && Model(t) == map[]
      ensures forall x {:trigger at[x]} :: x in at ==> fresh(at[x])
    {
      root := new Node(None, []);
      size := 0;
      new;
      at := map[[] := root];
      t := map[[] := Rec(None, [])];
      assert forall p {:trigger NodeOk(t, p)} :: p in t ==> NodeOk(t, p);
      assert Model(t) == map[];
    }

    lemma EdgeAt(p: Key, i: nat)
      requires Ok() && p in at
      ensures NodeOk(t, p) && at[p].leaf == t[p].leaf && |at[p].edges| == |t[p].kids|
      ensures i < |t[p].kids| ==> var e, kid := at[p].edges[i], t[p].kids[i];
        kid != [] && e.lab == kid[0] && p + kid in at && e.node == at[p + kid] && e.node.prefix == kid
    {
      assert NodeOk(t, p) && NodeLinked(L(), t, p);
      if i < |t[p].kids| { assert EdgeLinked(L(), at[p].edges[i], p, t[p].kids[i]); }
    }

    lemma Others(p: Key)
      requires Ok() && p in at
      ensures forall q :: q in at && q != p ==> at[q] != at[p]
    {
      forall q | q in at && q != p ensures at[q] != at[p] { assert Distinct(L().at, p, q); }
    }

    /** getEdge: the child of the node at p labelled b. */
    method GetEdge(n: Node<V>, b: Byte, ghost p: Key) returns (idx: Option<nat>)
      requires Ok() && p in at && n == at[p]
      ensures NodeOk(t, p) && |n.edges| == |t[p].kids|
      ensures idx.None? ==> !HasKid(t[p].kids, b)
      ensures idx.Some? ==> idx.value < |n.edges| && t[p].kids[idx.value] != [] && t[p].kids[idx.value][0] == b
    {
      EdgeAt(p, |t[p].kids|);
      forall i | 0 <= i < |n.edges| ensures n.edges[i].lab == t[p].kids[i][0] { EdgeAt(p, i); }
      var k := FindEdge(n.edges, b);
      idx := if k < |n.edges| && n.edges[k].lab == b then Some(k) else None;
    }

    /** Look for the edge and consume its prefix: the step every descent repeats. */
    method Consume(n: Node<V>, search: Key, ghost p: Key, ghost s: Key)
      returns (ok: bool, n': Node<V>, search': Key, ghost i: nat)
      requires Ok() && p in at && n == at[p] && s == p + search && search != []
      ensures ok ==> i < |t[p].kids| && n'.prefix == t[p].kids[i] && p + n'.prefix in at && n' == at[p + n'.prefix]
      ensures ok ==> s == p + n'.prefix + search' && |search'| < |search| && FirstAfter(t, p, s, p + n'.prefix)
      ensures !ok ==> NoneAfter(t, p, s)
    {
      n', search', i := n, search, 0;
      var idx := GetEdge(n, search[0], p);
      if idx.None? {
        StepNowhere(t, p, s);
        return false, n', search', i;
      }
      i := idx.value;
      EdgeAt(p, i);
      n' := n.edges[idx.value].node;
      assert s[|p|..] == search;
      StepDown(t, p, s, i);
      ok := n'.prefix <= search;
      if ok { search' := search[|n'.prefix|..]; }
    }

    /** Follow s down to the node whose path it is, if there is one, remembering the parent. */
    method Find(s: Key) returns (n: Node<V>, found: bool, ghost q: Key, ghost j: nat)
      requires Ok()
      ensures found <==> s in t
      ensures found ==> n == at[s] && n.leaf == t[s].leaf
      ensures found && s != [] ==> q in t && j < |t[q].kids| && s == q + t[q].kids[j]
    {
      n, q, j, found := root, [], 0, true;
      var search := s;
      ghost var p: Key := [];
      while |search| != 0
        invariant p in at && n == at[p] && s == p + search
        invariant p != [] ==> q in t && j < |t[q].kids| && p == q + t[q].kids[j]
        decreases |search|
      {
        var ok;
        ghost var i;
        ok, n, search, i := Consume(n, search, p, s);
        if !ok { return n, false, q, j; }
        q, j, p := p, i, p + n.prefix;
      }
      assert p == s;
      EdgeAt(s, 0);
    }

    method Get(s: Key) returns (r: Option<V>)
      requires Ok()
      ensures r == if s in Model(t) then Some(Model(t)[s]) else None
    {
      var n, found, q, j := Find(s);
      if !found || n.leaf.None? { return None; }
      return Some(n.leaf.value.val);
    }

    /** The longest stored key that is a prefix of s. */
    method LongestPrefix(s: Key) returns (r: Option<Leaf<V>>)
      requires Ok() && KeysOk(t)
      ensures r.None? ==> forall k :: k in Model(t) ==> !(k <= s)
      ensures r.Some? ==> r.value.key <= s && r.value.key in Model(t) && Model(t)[r.value.key] == r.value.val
      ensures r.Some? ==> forall k :: k in Model(t) && k <= s ==> k <= r.value.key
    {
      var n, search, ok := root, s, true;
      ghost var p: Key := [];
      r := None;
      while ok
        invariant p in at && p <= s && (ok ==> n == at[p] && s == p + search && Best(t, p, false, r))
        invariant !ok ==> Best(t, s, true, r)
        decreases ok, |search|
      {
        EdgeAt(p, 0);
        BestVisit(t, p, r);
        if n.leaf.Some? { r := n.leaf; }
        if |search| == 0 {
          BestEnd(t, p, s, r);
          break;
        }
        ghost var i;
        ok, n, search, i := Consume(n, search, p, s);
        if ok {
          BestStep(t, p, s, p + n.prefix, r);
          p := p + n.prefix;
        } else {
          BestEnd(t, p, s, r);
        }
      }
      assert Best(t, s, true, r);
    }

    // ---------- walks ----------

    /** A pre-order walk; `stop` is the callback, which may end the walk. */
    method RecursiveWalk(n: Node<V>, stop: Leaf<V> -> bool, ghost p: Key) returns (out: seq<Leaf<V>>, aborted: bool)
      requires Ok() && p in at && n == at[p]
      ensures out == UpTo(LeavesUnder(t, p), stop) && (aborted <==> Stops(LeavesUnder(t, p), stop))
      decreases |Below(t, p)|, |t[p].kids| + 2
    {
      EdgeAt(p, 0);
      WalkOwn(t, p, stop);
      out := [];
      if n.leaf.Some? {
        out := [n.leaf.value];
        if stop(n.leaf.value) { return out, true; }
      }
      var rest;
      rest, aborted := WalkKids(n, stop, p);
      out := out + rest;
    }

    /** The loop over the children of the node at p. */
    method WalkKids(n: Node<V>, stop: Leaf<V> -> bool, ghost p: Key) returns (out: seq<Leaf<V>>, aborted: bool)
      requires Ok() && p in at && n == at[p]
      ensures out == UpTo(LeavesFrom(t, p, 0), stop) && (aborted <==> Stops(LeavesFrom(t, p, 0), stop))
      decreases |Below(t, p)|, |t[p].kids| + 1
    {
      EdgeAt(p, 0);
      out, aborted := [], false;
      ghost var from := LeavesFrom(t, p, 0);
      var i := 0;
      while i < |n.edges| && !aborted
        invariant Ok() && 0 <= i <= |n.edges| == |t[p].kids| && Walked(t, p, i, stop, from, out, aborted)
      {
        var sub;
        sub, aborted := WalkOne(n, i, stop, p);
        WalkedOne(t, p, i, stop, from, out, sub, aborted);
        out, i := out + sub, i + 1;
      }
      WalkedAll(t, p, i, stop, from, out, aborted);
    }

    method WalkOne(n: Node<V>, i: nat, stop: Leaf<V> -> bool, ghost p: Key) returns (out: seq<Leaf<V>>, aborted: bool)
      requires Ok() && p in at && n == at[p] && i < |n.edges| == |t[p].kids|
      ensures p + t[p].kids[i] in t && out == UpTo(LeavesUnder(t, p + t[p].kids[i]), stop)
      ensures aborted <==> Stops(LeavesUnder(t, p + t[p].kids[i]), stop)
      decreases |Below(t, p)|, 0
    {
      EdgeAt(p, i);
      ChildBelow(t, p, i);
      out, aborted := RecursiveWalk(n.edges[i].node, stop, p + t[p].kids[i]);
    }

    /** Walk visits every stored key once, in byte-lexicographic order. */
    method Walk(stop: Leaf<V> -> bool) returns (out: seq<Leaf<V>>)
      requires Ok() && KeysOk(t)
      ensures VisitsUnder(t, [], stop, out)
    {
      var aborted;
      out, aborted := RecursiveWalk(root, stop, []);
      UnderLists(t, []);
      VisitedUnder(t, [], LeavesUnder(t, []), stop);
    }

    /** WalkPrefix visits exactly the stored keys under the prefix. */
    method WalkPrefix(prefix: Key, stop: Leaf<V> -> bool) returns (out: seq<Leaf<V>>)
      requires Ok() && KeysOk(t)
      ensures VisitsUnder(t, prefix, stop, out)
    {
      ghost var full;
      out, full := WalkUnder(prefix, stop);
      VisitedUnder(t, prefix, full, stop);
    }

    method WalkUnder(prefix: Key, stop: Leaf<V> -> bool) returns (out: seq<Leaf<V>>, ghost full: seq<Leaf<V>>)
      requires Ok() && KeysOk(t)
      ensures ListsUnder(t, prefix, full) && out == UpTo(full, stop)
    {
      var n, search, aborted := root, prefix, false;
      ghost var p: Key := [];
      out, full := [], [];
      while |search| != 0
        invariant p in at && n == at[p] && prefix == p + search
        decreases |search|
      {
        var idx := GetEdge(n, search[0], p);
        if idx.None? {
          NoEdgeLists(t, p, search);
          return;
        }
        EdgeAt(p, idx.value);
        var c := n.edges[idx.value].node;
        if c.prefix <= search {
          p, search, n := p + c.prefix, search[|c.prefix|..], c;
        } else {
          EdgeLists(t, p, idx.value, search);
          if search <= c.prefix {
            out, aborted := RecursiveWalk(c, stop, p + c.prefix);
            full := LeavesUnder(t, p + c.prefix);
          }
          return;
        }
      }
      assert p == prefix;
      out, aborted := RecursiveWalk(n, stop, p);
      full := LeavesUnder(t, p);
      UnderLists(t, p);
    }

    /** WalkPath visits exactly the stored prefixes of the path, shortest first. */
    method WalkPath(path: Key, stop: Leaf<V> -> bool) returns (out: seq<Leaf<V>>)
      requires Ok() && KeysOk(t)
      ensures VisitsPath(t, path, stop, out)
    {
      PathLists(t, path);
      out := WalkAlong(path, stop);
      VisitedPath(t, path, PathLeaves(t, path), stop);
    }

    method WalkAlong(path: Key, stop: Leaf<V> -> bool) returns (out: seq<Leaf<V>>)
      requires Ok()
      ensures out == UpTo(PathLeaves(t, path), stop)
    {
      ghost var full := PathLeaves(t, path);
      var n, search := root, path;
      ghost var p: Key := [];
      out := [];
      while true
        invariant p in at && n == at[p] && path == p + search && out == PathBefore(t, p) && !Stops(out, stop)
        decreases |search|
      {
        EdgeAt(p, 0);
        PathGrows(t, p, path);
        if n.leaf.Some? {
          if stop(n.leaf.value) {
            UpToStopped(out, n.leaf.value, full, stop);
            return out + [n.leaf.value];
          }
          StopsAppend(out, [n.leaf.value], stop);
          out := out + [n.leaf.value];
        }
        assert out == PathLeaves(t, p);
        if |search| == 0 { break; }
        var ok;
        ghost var i;
        ok, n, search, i := Consume(n, search, p, path);
        if !ok { break; }
        PathNext(t, p, path, p + n.prefix);
        p := p + n.prefix;
      }
      PathGap(t, p, path);
      UpToNever(full, stop);
    }

    // ---------- the mutations, field by field ----------

    method SetLeafField(n: Node<V>, leaf: Option<Leaf<V>>, ghost p: Key)
      requires p in at && n == at[p] && forall q :: q in at && q != p ==> at[q] != n
      modifies n`leaf
      ensures L() == WithLeaf(old(L()), p, leaf)
    {
      n.leaf := leaf;
    }

    method SetEdges(n: Node<V>, es: seq<Edge<V>>, ghost p: Key)
      requires p in at && n == at[p] && forall q :: q in at && q != p ==> at[q] != n
      modifies n`edges
      ensures n.edges == es && L() == Links(old(at), old(L()).cells[p := old(L()).cells[p].(edges := es)])
    {
      n.edges := es;
      assert L().cells == old(L()).cells[p := old(L()).cells[p].(edges := es)];
    }

    method SetPrefix(n: Node<V>, prefix: Key, ghost p: Key)
      requires p in at && n == at[p] && forall q :: q in at && q != p ==> at[q] != n
      modifies n`prefix
      ensures n.prefix == prefix && L() == Links(old(at), old(L()).cells[p := old(L()).cells[p].(prefix := prefix)])
    {
      n.prefix := prefix;
      assert L().cells == old(L()).cells[p := old(L()).cells[p].(prefix := prefix)];
    }

    /** The tree gets a node with a new path. */
    ghost method Adopt(c: Node<V>, p: Key)
      requires p !in at
      modifies this`at
      ensures at == old(at)[p := c] && L() == Links(at, old(L()).cells[p := CellOf(c)])
    {
      at := at[p := c];
      assert L().cells == old(L()).cells[p := CellOf(c)];
    }

    method InsertEdge(n: Node<V>, j: nat, c: Node<V>, search: Key, leaf: Leaf<V>, ghost p: Key)
      requires p in at && n == at[p] && (forall q :: q in at && q != p ==> at[q] != n)
      requires j <= |n.edges| && search != [] && p + search !in at && c !in at.Values
               && CellOf(c) == Cell(Some(leaf), search, [])
      modifies n`edges, this`at
      ensures at == old(at)[p + search := c] && L() == WithChild(old(L()), p, j, c, search, leaf)
    {
      SetEdges(n, n.edges[..j] + [Edge(search[0], c)] + n.edges[j..], p);
      Adopt(c, p + search);
    }

    // ---------- the mutations ----------

    ghost method Reshape(u: Trie<V>)
      requires TrieOk(u) && [] in at && root == at[[]] && Linked(L(), u)
      modifies this`t
      ensures Ok() && t == u
    {
      t := u;
    }

    method PutLeaf(n: Node<V>, leaf: Option<Leaf<V>>, ghost p: Key)
      requires Ok() && p in at && n == at[p]
      modifies n`leaf, this`t
      ensures Ok() && t == SetLeaf(old(t), p, leaf)
    {
      WithLeafLinked(L(), t, p, leaf);
      SetLeafOk(t, p, leaf);
      Others(p);
      SetLeafField(n, leaf, p);
      Reshape(SetLeaf(t, p, leaf));
    }

    /** addEdge: append and sort by label.  The labels are distinct, so the new edge can only
        end up in one place. */
    method EdgePlace(n: Node<V>, b: Byte, ghost p: Key) returns (j: nat)
      requires Ok() && p in at && n == at[p]
      ensures NodeOk(t, p) && |n.edges| == |t[p].kids| && j == Place(t[p].kids, b)
    {
      EdgeAt(p, |t[p].kids|);
      forall i | 0 <= i < |n.edges| ensures n.edges[i].lab == t[p].kids[i][0] { EdgeAt(p, i); }
      j := FindEdge(n.edges, b);
      PlaceUnique(t[p].kids, b, j);
    }

    /** Hang a new leaf node below the node at p. */
    method AddChild(n: Node<V>, search: Key, leaf: Leaf<V>, ghost p: Key) returns (c: Node<V>)
      requires Ok() && p in at && n == at[p] && search != [] && NodeOk(t, p) && !HasKid(t[p].kids, search[0])
      modifies n`edges, this`t, this`at
      ensures p + search !in old(t) && t == AddNode(old(t), p, search, leaf) && Ok()
      ensures fresh(c) && at == old(at)[p + search := c]
    {
      var j := EdgePlace(n, search[0], p);
      c := new Node(Some(leaf), search);
      Hang(n, j, c, search, leaf, p);
    }

    method Hang(n: Node<V>, j: nat, c: Node<V>, search: Key, leaf: Leaf<V>, ghost p: Key)
      requires Ok() && p in at && n == at[p]
      requires search != [] && NodeOk(t, p) && !HasKid(t[p].kids, search[0])
      requires |n.edges| == |t[p].kids| && j == Place(t[p].kids, search[0])
      requires c !in at.Values && c.leaf == Some(leaf) && c.prefix == search && c.edges == []
      modifies n`edges, this`t, this`at
      ensures p + search !in old(t) && t == AddNode(old(t), p, search, leaf) && at == old(at)[p + search := c] && Ok()
    {
      Others(p);
      AddNodeOk(t, p, search, leaf);
      WithChildLinked(L(), t, p, c, search, leaf);
      InsertEdge(n, j, c, search, leaf, p);
      Reshape(AddNode(t, p, search, leaf));
    }

    method SplitFields(n: Node<V>, i: nat, c: Node<V>, mid: Node<V>, kid: Key, k: nat, ghost p: Key)
      requires p in at && n == at[p] && (forall q :: q in at && q != p ==> at[q] != n)
      requires p + kid in at && c == at[p + kid] && (forall q :: q in at && q != p + kid ==> at[q] != c)
      requires i < |n.edges| && n.edges[i].node == c && c.prefix == kid && 0 < k < |kid| && p + kid[..k] !in at
      requires mid !in at.Values && mid.leaf == None && mid.prefix == kid[..k]
      modifies n`edges, c`prefix, mid`edges, this`at
      ensures at == old(at)[p + kid[..k] := mid] && L() == WithSplit(old(L()), p, i, kid, k, mid)
    {
      ghost var l := L();
      mid.edges := [Edge(kid[k], c)];
      assert L() == l;
      assert p + kid != p;
      SetEdges(n, n.edges[i := Edge(kid[0], mid)], p);
      SetPrefix(c, kid[k..], p + kid);
      Adopt(mid, p + kid[..k]);
    }

    /** Put a new node between the node at p and its i-th child c, after k bytes of its prefix. */
    method SplitNode(n: Node<V>, i: nat, c: Node<V>, k: nat, ghost p: Key) returns (mid: Node<V>)
      requires Ok() && p in at && n == at[p] && i < |t[p].kids| && 0 < k < |t[p].kids[i]|
      requires i < |n.edges| && c == n.edges[i].node
      modifies n`edges, c`prefix, this`at, this`t
      ensures Ok() && t == Split(old(t), p, i, k) && fresh(mid) && at == old(at)[p + old(t)[p].kids[i][..k] := mid]
    {
      EdgeAt(p, i);
      var kid := c.prefix;
      mid := new Node(None, kid[..k]);
      SplitLinked(n, i, c, mid, kid, k, p);
    }

    method SplitLinked(n: Node<V>, i: nat, c: Node<V>, mid: Node<V>, kid: Key, k: nat, ghost p: Key)
      requires Ok() && p in at && n == at[p] && i < |t[p].kids| == |n.edges| && kid == t[p].kids[i] && 0 < k < |kid|
      requires p + kid in at && c == at[p + kid] && n.edges[i].node == c && c.prefix == kid
      requires mid !in at.Values && mid.leaf == None && mid.prefix == kid[..k]
      modifies n`edges, c`prefix, mid`edges, this`at, this`t
      ensures Ok() && t == Split(old(t), p, i, k) && at == old(at)[p + kid[..k] := mid]
    {
      Others(p);
      Others(p + kid);
      SplitOk(t, p, i, k);
      assert NodeOk(t, p);
      WithSplitLinked(L(), t, p, i, k, mid);
      SplitFields(n, i, c, mid, kid, k, p);
      Reshape(Split(t, p, i, k));
    }

    method Locate(s: Key) returns (n: Node<V>, search: Key, stop: Stop, ghost p: Key)
      requires Ok()
      ensures p in at && n == at[p] && StopsAt(t, p, s, search, stop)
      ensures !stop.Here? ==> s !in t
    {
      n, search, p := root, s, [];
      while |search| != 0
        invariant p in at && n == at[p] && s == p + search
        decreases |search|
      {
        var idx := GetEdge(n, search[0], p);
        if idx.None? {
          NoEdgeStops(t, p, s, search);
          return n, search, NoEdge, p;
        }
        EdgeAt(p, idx.value);
        var c := n.edges[idx.value].node;
        var k := CommonPrefix(search, c.prefix);
        if k != |c.prefix| {
          PartwayStops(t, p, s, search, idx.value, k);
          return n, search, Partway(idx.value, k), p;
        }
        assert search == c.prefix + search[k..];
        p, search, n := p + c.prefix, search[k..], c;
      }
      assert NodeOk(t, p);
      stop := Here;
    }

    /** Store a leaf at the node n, or in a new child of it when some of the key is left. */
    method PutBelow(n: Node<V>, rest: Key, leaf: Leaf<V>, ghost p: Key) returns (c: Node<V>)
      requires Ok() && p in at && n == at[p] && NodeOk(t, p)
      requires rest != [] ==> !HasKid(t[p].kids, rest[0])
      modifies n`leaf, n`edges, this`t, this`at
      ensures Ok() && LeafPut(old(t), p, rest, leaf, t)
      ensures rest == [] ==> at == old(at)
      ensures rest != [] ==> fresh(c) && at == old(at)[p + rest := c]
    {
      if |rest| == 0 {
        PutLeaf(n, Some(leaf), p);
        c := n;
      } else {
        c := AddChild(n, rest, leaf, p);
      }
    }

    method InsertPartway(n: Node<V>, search: Key, i: nat, k: nat, s: Key, v: V, ghost p: Key)
      returns (mid: Node<V>, c: Node<V>)
      requires Ok() && p in at && n == at[p] && StopsAt(t, p, s, search, Partway(i, k))
      modifies this`at, this`t, at.Values
      ensures Ok() && InsertedAt(old(t), p, search, Partway(i, k), s, v, t)
      ensures fresh(mid) && (k == |search| ==> at == old(at)[p + search[..k] := mid])
      ensures k < |search| ==> fresh(c) && at == old(at)[p + search[..k] := mid][s := c]
    {
      ghost var pm := p + search[..k];
      SplitReady(t, p, i, k, search);
      EdgeAt(p, i);
      mid := SplitNode(n, i, n.edges[i].node, k, p);
      c := PutBelow(mid, search[k..], Leaf(s, v), pm);
    }

    /** Add or replace the value of s, returning the previous one. */
    method Insert(s: Key, v: V) returns (previous: Option<V>)
      requires Valid() && KeysOk(t)
      modifies this, at.Values
      ensures Valid() && KeysOk(t) && Model(t) == old(Model(t))[s := v] && Inserted(old(t), s, v, t)
      ensures previous == if s in old(Model(t)) then Some(old(Model(t))[s]) else None
      ensures forall q {:trigger at[q]} :: q in at ==> fresh(at[q]) || (q in old(at) && at[q] == old(at)[q])
    {
      var n, search, stop, p := Locate(s);
      previous := None;
      if stop.Here? {
        EdgeAt(p, 0);
        assert p == s && p + [] == p;
        if n.leaf.Some? { previous := Some(n.leaf.value.val); }
      }
      InsertAndCount(n, search, stop, s, v, previous.None?, p);
    }

    method InsertAndCount(n: Node<V>, search: Key, stop: Stop, s: Key, v: V, grows: bool, ghost p: Key)
      requires Valid() && KeysOk(t) && p in at && n == at[p] && StopsAt(t, p, s, search, stop)
      requires grows <==> s !in Model(t)
      modifies this`at, this`t, this`size, at.Values
      ensures Valid() && KeysOk(t) && Model(t) == old(Model(t))[s := v] && Inserted(old(t), s, v, t)
      ensures forall q {:trigger at[q]} :: q in at ==> fresh(at[q]) || (q in old(at) && at[q] == old(at)[q])
    {
      InsertedSize(Model(t), s, v);
      Store(n, search, stop, s, v, p);
      Resize(if grows then size + 1 else size);
    }

    method Resize(n: nat)
      requires Ok() && n == |Model(t)|
      modifies this`size
      ensures Valid()
    {
      size := n;
    }

    method Store(n: Node<V>, search: Key, stop: Stop, s: Key, v: V, ghost p: Key)
      requires Ok() && KeysOk(t) && p in at && n == at[p] && StopsAt(t, p, s, search, stop)
      modifies this`at, this`t, at.Values
      ensures Ok() && KeysOk(t) && Model(t) == old(Model(t))[s := v] && Inserted(old(t), s, v, t)
      ensures forall q {:trigger at[q]} :: q in at ==> fresh(at[q]) || (q in old(at) && at[q] == old(at)[q])
    {
      InsertAt(n, search, stop, s, v, p);
      InsertedModel(old(t), p, search, stop, s, v, t);
    }

    method InsertAt(n: Node<V>, search: Key, stop: Stop, s: Key, v: V, ghost p: Key)
      requires Ok() && p in at && n == at[p] && StopsAt(t, p, s, search, stop)
      modifies this`at, this`t, at.Values
      ensures Ok() && InsertedAt(old(t), p, search, stop, s, v, t)
      ensures forall q {:trigger at[q]} :: q in at ==> fresh(at[q]) || (q in old(at) && at[q] == old(at)[q])
    {
      match stop
      case Here =>
        EdgeAt(p, 0);
        var key := if n.leaf.Some? then n.leaf.value.key else s;
        var c := PutBelow(n, [], Leaf(key, v), p);
      case NoEdge =>
        var c := PutBelow(n, search, Leaf(s, v), p);
      case Partway(i, k) =>
        var mid, c := InsertPartway(n, search, i, k, s, v, p);
    }

    // ---------- deletion ----------

    /** Copy the only child into the node n. */
    method AbsorbChild(n: Node<V>, c: Node<V>)
      requires n != c
      modifies n
      ensures CellOf(n) == Cell(c.leaf, old(n.prefix) + c.prefix, c.edges)
    {
      n.prefix := n.prefix + c.prefix;
      n.leaf := c.leaf;
      n.edges := c.edges;
    }

    method MergeFields(n: Node<V>, c: Node<V>, ghost s: Key, ghost more: Key, ghost ns: set<Node<V>>)
      requires s in at && n == at[s] && (forall q :: q in at && q != s ==> at[q] != n)
      requires more != [] && s + more in at && c == at[s + more]
      requires Within(at, ns)
      modifies n, this`at
      ensures L() == WithMerge(old(L()), s, more) && at == old(at - {s})[s + more := n]
      ensures Within(at, ns)
    {
      ghost var l := L();
      AbsorbChild(n, c);
      at := (at - {s})[s + more := n];
      assert L().cells == WithMerge(l, s, more).cells;
    }

    method MergeNode(n: Node<V>, c: Node<V>, ghost q: Key, ghost j: nat, ghost s: Key, ghost ns: set<Node<V>>)
      requires Ok() && s in at && n == at[s] && CanMerge(t, q, j, s) && q != s
      requires t[s].kids[0] != [] && s + t[s].kids[0] in at && c == at[s + t[s].kids[0]]
      requires Within(at, ns)
      modifies n, this`at, this`t
      ensures Ok() && Model(t) == old(Model(t)) && (KeysOk(old(t)) ==> KeysOk(t))
      ensures Within(at, ns)
    {
      Others(s);
      ghost var more := t[s].kids[0];
      MergeOk(t, q, j, s);
      WithMergeLinked(L(), t, q, j, s);
      MergeFields(n, c, s, more, ns);
      Reshape(Merge(t, q, j, s));
    }

    method RerootFields(n: Node<V>, c: Node<V>, ghost p: Key, ghost u: Trie<V>, ghost ns: set<Node<V>>)
      requires [] in at && n == at[[]] && (forall q :: q in at && q != [] ==> at[q] != n)
      requires p in at && c == at[p] && Reseatable(L(), t, p, u)
      requires Within(at, ns)
      modifies n, this`at
      ensures at.Keys == u.Keys && at[[]] == n && Reseated(old(L()), u, p, L())
      ensures Within(at, ns)
    {
      ghost var l := L();
      ShiftedIn(t, p, u);
      AbsorbChild(n, c);
      at := map x | x in u :: if x == [] then n else l.at[p + x];
      forall x {:trigger L().cells[x]} | x in u && x != [] ensures L().cells[x] == l.cells[p + x] {
        assert p + x != [] && l.at[p + x] != n;
      }
    }

    method RerootLinked(n: Node<V>, c: Node<V>, ghost p: Key, ghost u: Trie<V>, ghost ns: set<Node<V>>)
      requires [] in at && n == at[[]] && (forall q :: q in at && q != [] ==> at[q] != n)
      requires p in at && c == at[p] && Reseatable(L(), t, p, u)
      requires Within(at, ns)
      modifies n, this`at
      ensures [] in at && at[[]] == n && Linked(L(), u)
      ensures Within(at, ns)
    {
      ghost var l := L();
      RerootFields(n, c, p, u, ns);
      ReseatedLinked(l, t, p, u, L());
    }

    /** The root takes over its only child: from now on every key has lost the child's prefix. */
    method Reroot(c: Node<V>, ghost ns: set<Node<V>>)
      requires Ok() && |t[[]].kids| == 1 && t[[]].kids[0] != [] && t[[]].kids[0] in at && c == at[t[[]].kids[0]]
      requires Within(at, ns)
      modifies root, this`at, this`t
      ensures Ok() && Shifted(old(t), old(t)[[]].kids[0], t)
      ensures Within(at, ns)
    {
      Others([]);
      ghost var u := ReseatReady(L(), t);
      RerootLinked(root, c, t[[]].kids[0], u, ns);
      Reshape(u);
    }

    /** Empty the leaf of node n and count it out. */
    method TakeLeaf(n: Node<V>, ghost s: Key) returns (v: V)
      requires Ok() && s in at && n == at[s] && n.leaf.Some? && size > 0
      modifies n`leaf, this`t, this`size
      ensures Ok() && t == SetLeaf(old(t), s, None) && size == old(size) - 1 && v == old(n.leaf.value.val)
    {
      v := n.leaf.value.val;
      size := size - 1;
      PutLeaf(n, None, s);
    }

    /** Take the empty node n, which is not the root, off the path to its only child. */
    method Collapse(n: Node<V>, ghost s: Key, ghost q: Key, ghost j: nat, ghost ns: set<Node<V>>)
      requires Ok() && s in t && n == at[s] && t[s].leaf.None? && |t[s].kids| == 1
      requires s != [] && q in t && j < |t[q].kids| && s == q + t[q].kids[j]
      requires Within(at, ns)
      modifies n, this`at, this`t
      ensures Ok() && Model(t) == old(Model(t)) && (KeysOk(old(t)) ==> KeysOk(t))
      ensures Within(at, ns)
    {
      EdgeAt(s, 0);
      EdgeAt(q, j);
      MergeNode(n, n.edges[0].node, q, j, s, ns);
    }

    method CollapseRoot(ghost ns: set<Node<V>>)
      requires Ok() && |t[[]].kids| == 1
      requires Within(at, ns)
      modifies root, this`at, this`t
      ensures Ok() && Shifted(old(t), old(t)[[]].kids[0], t)
      ensures Within(at, ns)
    {
      EdgeAt([], 0);
      assert [] + t[[]].kids[0] == t[[]].kids[0];
      Reroot(root.edges[0].node, ns);
    }

    /** The node n has just lost its leaf: merge it with its child if it has exactly one.  Both
        inner branches copy the child's fields into n; they differ in what that means. */
    method Tidy(n: Node<V>, s: Key, ghost q: Key, ghost j: nat, ghost t0: Trie<V>, ghost ns: set<Node<V>>)
      requires Ok() && TrieOk(t0) && s in t0 && t0[s].leaf.Some? && t == SetLeaf(t0, s, None) && s in at && n == at[s]
      requires s != [] ==> q in t0 && j < |t0[q].kids| && s == q + t0[q].kids[j]
      requires Within(at, ns)
      modifies n, this`at, this`t
      ensures Ok() && Deleted(t0, s, t)
      ensures Within(at, ns)
    {
      DeleteFacts(t0, s);
      EdgeAt(s, 0);
      if |n.edges| == 1 {
        if |s| != 0 {
          Collapse(n, s, q, j, ns);
        } else {
          CollapseRoot(ns);
        }
      }
    }

    method DeleteFound(n: Node<V>, s: Key, ghost q: Key, ghost j: nat, ghost ns: set<Node<V>>) returns (v: V)
      requires Ok() && s in at && n == at[s] && n.leaf.Some? && n.leaf == t[s].leaf && size > 0
      requires s != [] ==> q in t && j < |t[q].kids| && s == q + t[q].kids[j]
      requires Within(at, ns)
      modifies n, this`at, this`t, this`size
      ensures Ok() && Deleted(old(t), s, t) && v == old(n.leaf.value.val) && size == old(size) - 1
      ensures Within(at, ns)
    {
      ghost var t0 := t;
      v := TakeLeaf(n, s);
      Tidy(n, s, q, j, t0, ns);
    }

    /** Delete s, returning its value.  The map is right afterwards except in one case: the
        root held the deleted key and had a single child, and other keys are stored. */
    method Delete(s: Key) returns (previous: Option<V>)
      requires Valid()
      modifies this, at.Values
      ensures Valid() && size == |old(Model(t)) - {s}|
      ensures previous == if s in old(Model(t)) then Some(old(Model(t))[s]) else None
      ensures Model(t) == old(Model(t)) - {s} <==> !Breaks(old(t), s)
      ensures s in old(Model(t)) ==> Deleted(old(t), s, t)
      ensures !Breaks(old(t), s) && KeysOk(old(t)) ==> KeysOk(t)
      ensures Within(at, old(at.Values))
    {
      var n, found, q, j := Find(s);
      previous := Remove(n, found, s, q, j);
    }

    /** The same once the node has been looked for. */
    method Remove(n: Node<V>, found: bool, s: Key, ghost q: Key, ghost j: nat) returns (previous: Option<V>)
      requires Valid() && (found <==> s in t) && (found ==> n == at[s] && n.leaf == t[s].leaf)
      requires found && s != [] ==> q in t && j < |t[q].kids| && s == q + t[q].kids[j]
      modifies this, at.Values
      ensures Valid() && size == |old(Model(t)) - {s}|
      ensures previous == if s in old(Model(t)) then Some(old(Model(t))[s]) else None
      ensures Model(t) == old(Model(t)) - {s} <==> !Breaks(old(t), s)
      ensures s in old(Model(t)) ==> Deleted(old(t), s, t)
      ensures !Breaks(old(t), s) && KeysOk(old(t)) ==> KeysOk(t)
      ensures Within(at, old(at.Values))
    {
      previous := None;
      if found && n.leaf.Some? {
        ghost var t0 := t;
        var v := DeleteStored(n, s, q, j, at.Values);
        DeletedExactly(t0, s, t);
        previous := Some(v);
      } else {
        NothingToDelete(t, s);
      }
    }

    /** Whether deleting s now would meet the failing case. */
    method FailsNow(s: Key) returns (fails: bool)
      requires Valid()
      ensures fails <==> Breaks(t, s)
    {
      EdgeAt([], 0);
      fails := |s| == 0 && root.leaf.Some? && |root.edges| == 1 && size > 1;
    }

    method DeleteStored(n: Node<V>, s: Key, ghost q: Key, ghost j: nat, ghost ns: set<Node<V>>) returns (v: V)
      requires Valid() && s in at && s in t && n == at[s] && n.leaf.Some? && n.leaf == t[s].leaf
      requires s != [] ==> q in t && j < |t[q].kids| && s == q + t[q].kids[j]
      requires Within(at, ns)
      modifies n, this`at, this`t, this`size
      ensures Valid() && Deleted(old(t), s, t) && v == old(n.leaf.value.val)
      ensures Within(at, ns)
    {
      ghost var t0 := t;
      DeleteFacts(t0, s);
      v := DeleteFound(n, s, q, j, ns);
      DeletedExactly(t0, s, t);
    }
  }

  lemma InsertedSize<V>(m: map<Key, V>, s: Key, v: V)
    ensures |m[s := v]| == if s in m then |m| else |m| + 1
  {
    assert m[s := v].Keys == m.Keys + {s};
  }

  lemma NothingToDelete<V>(t: Trie<V>, s: Key)
    requires [] in t && s !in Model(t)
    ensures Model(t) - {s} == Model(t) && !Breaks(t, s)
  {
  }

  /** What deleting the stored key s makes of the trie t0. */
  ghost predicate Deleted<V>(t0: Trie<V>, s: Key, t: Trie<V>)
    requires [] in t0
  {
    if RootMerges(t0, s) then Shifted(SetLeaf(t0, [], None), t0[[]].kids[0], t)
    else Model(t) == Model(t0) - {s} && (KeysOk(t0) ==> KeysOk(t))
  }

  lemma DeletedExactly<V>(t0: Trie<V>, s: Key, t: Trie<V>)
    requires TrieOk(t0) && s in t0 && t0[s].leaf.Some? && Deleted(t0, s, t)
    ensures Model(t) == Model(t0) - {s} <==> !Breaks(t0, s)
    ensures |Model(t)| == |Model(t0) - {s}| == |Model(t0)| - 1
    ensures !Breaks(t0, s) && KeysOk(t0) ==> KeysOk(t)
  {
    DeleteFacts(t0, s);
    if RootMerges(t0, s) { RootMergeModel(t0, t); }
    if |Model(t)| == 0 { NoLeaves(t); }
  }

  lemma NoLeaves<V>(t: Trie<V>)
    requires |Model(t)| == 0
    ensures KeysOk(t)
  {
    assert Model(t) == map[];
    assert forall p :: p in t && t[p].leaf.Some? ==> p in Model(t);
  }

  lemma DeleteFacts<V>(t: Trie<V>, s: Key)
    requires TrieOk(t) && s in t && t[s].leaf.Some?
    ensures TrieOk(SetLeaf(t, s, None)) && Model(SetLeaf(t, s, None)) == Model(t) - {s}
    ensures KeysOk(t) ==> KeysOk(SetLeaf(t, s, None))
    ensures |Model(t) - {s}| == |Model(t)| - 1
  {
    SetLeafOk(t, s, None);
    assert Model(t).Keys == (Model(t) - {s}).Keys + {s};
  }

  // ---------- the empty key ----------

  ghost function OneKey<V>(v: V): Trie<V> { map[[] := Rec(Some(Leaf([], v)), [])] }

  ghost function TwoKeys<V>(v: V, s: Key, w: V): Trie<V> {
    map[[] := Rec(Some(Leaf([], v)), [s]), s := Rec(Some(Leaf(s, w)), [])]
  }

  lemma FirstInsert<V>(t: Trie<V>, v: V, t': Trie<V>)
    requires t == map[[] := Rec(None, [])] && Inserted(t, [], v, t')
    ensures t' == OneKey(v)
  {
  }

  lemma SecondInsert<V>(t: Trie<V>, v: V, s: Key, w: V, t': Trie<V>)
    requires t == OneKey(v) && s != [] && Inserted(t, s, w, t')
    ensures t' == TwoKeys(v, s, w)
  {
    var p, search, stop :| StopsAt(t, p, s, search, stop) && InsertedAt(t, p, search, stop, s, w, t');
    assert p == [] && search == s && stop == NoEdge;
    BelowRoot(v, s, w);
  }

  lemma BelowRoot<V>(v: V, s: Key, w: V)
    requires s != []
    ensures AddNode(OneKey(v), [], s, Leaf(s, w)) == TwoKeys(v, s, w)
  {
    assert AddKid([], s) == [s] && [] + s == s;
  }

  lemma RootMergeMoves<V>(t: Trie<V>, v: V, s: Key, w: V, u: Trie<V>)
    requires s != [] && t == TwoKeys(v, s, w) && Deleted(t, [], u)
    ensures [] in Model(t) && Model(u) == map[[] := w]
  {
    var t0 := SetLeaf(t, [], None);
    ShiftedModel(t0, s, u);
    assert s + [] == s;
    forall x ensures x in Model(u) <==> x == [] { assert s + x == s ==> |x| == 0; }
  }

  method StoreEmpty<V>(v: V) returns (tree: Tree<V>)
    ensures fresh(tree) && (forall x {:trigger tree.at[x]} :: x in tree.at ==> fresh(tree.at[x]))
    ensures tree.Valid() && KeysOk(tree.t) && tree.t == OneKey(v)
  {
    tree := new Tree();
    ghost var t := tree.t;
    var r := tree.Insert([], v);
    FirstInsert(t, v, tree.t);
  }

  method StoreTwo<V>(v: V, s: Key, w: V) returns (tree: Tree<V>)
    requires s != []
    ensures fresh(tree) && (forall x {:trigger tree.at[x]} :: x in tree.at ==> fresh(tree.at[x]))
    ensures tree.Valid() && tree.t == TwoKeys(v, s, w)
  {
    tree := StoreEmpty(v);
    ghost var t := tree.t;
    var r := tree.Insert(s, w);
    SecondInsert(t, v, s, w, tree.t);
  }

  method DropEmpty<V>(v: V, s: Key, w: V) returns (tree: Tree<V>)
    requires s != []
    ensures tree.Ok() && Model(tree.t) == map[[] := w]
  {
    tree := StoreTwo(v, s, w);
    ghost var t := tree.t;
    assert [] in Model(t);
    var r := tree.Delete([]);
    RootMergeMoves(t, v, s, w, tree.t);
  }

  /** Deleting the empty key moves the other key: it is stored under the empty one from then on. */
  method DeleteEmptyKey<V>(v: V, s: Key, w: V) returns (atKey: Option<V>, atEmpty: Option<V>)
    requires s != []
    ensures atKey == None && atEmpty == Some(w)
  {
    var tree := DropEmpty(v, s, w);
    atKey := tree.Get(s);
    atEmpty := tree.Get([]);
  }

  // ---------- sequences of operations ----------

  datatype Op<V> = Insert(key: Key, val: V) | Delete(key: Key)

  ghost function Apply<V>(m: map<Key, V>, op: Op<V>): map<Key, V> {
    match op
    case Insert(k, v) => m[k := v]
    case Delete(k) => m - {k}
  }

  /** The map built by the same operations. */
  ghost function Play<V>(ops: seq<Op<V>>): map<Key, V> {
    if ops == [] then map[] else Apply(Play(ops[..|ops| - 1]), ops[|ops| - 1])
  }

  /** The deletion that moves every other key. */
  ghost predicate Fails<V>(t: Trie<V>, op: Op<V>)
    requires [] in t
  {
    op.Delete? && Breaks(t, op.key)
  }

  /** t stands for the map that the first `done` operations build, and the next one would fail. */
  ghost predicate Replayed<V>(ops: seq<Op<V>>, done: nat, t: Trie<V>) {
    && [] in t && KeysOk(t) && done <= |ops| && Model(t) == Play(ops[..done])
    && (done < |ops| ==> Fails(t, ops[done]))
  }

  lemma ReplayedMore<V>(ops: seq<Op<V>>, done: nat, t: Trie<V>, t': Trie<V>, ok: bool)
    requires ops != [] && [] in t' && Replayed(ops[..|ops| - 1], done, t)
    requires done < |ops| - 1 ==> !ok && t' == t
    requires done == |ops| - 1 ==> KeysOk(t') && (ok <==> !Fails(t, ops[done]))
    requires done == |ops| - 1 ==> if ok then Model(t') == Apply(Model(t), ops[done]) else t' == t
    ensures Replayed(ops, if ok then done + 1 else done, t')
  {
    var front := ops[..|ops| - 1];
    assert front[..done] == ops[..done] && ops[..|ops|] == ops;
    assert ok ==> front[..done] == front;
  }

  lemma NoEmptyDeleteFails<V>(ops: seq<Op<V>>, done: nat, t: Trie<V>)
    requires Replayed(ops, done, t) && forall i :: 0 <= i < |ops| && ops[i].Delete? ==> ops[i].key != []
    ensures Model(t) == Play(ops)
  {
    assert ops[..done] == ops;
  }

  /** Any sequence of operations leaves a tree that stands for exactly the map built by the same
      operations, as far as the first deletion that meets the failing case. */
  method Replay<V>(ops: seq<Op<V>>) returns (tree: Tree<V>, done: nat)
    ensures fresh(tree) && (forall x {:trigger tree.at[x]} :: x in tree.at ==> fresh(tree.at[x]))
    ensures tree.Valid() && Replayed(ops, done, tree.t)
    decreases |ops|
  {
    if |ops| == 0 {
      tree := new Tree();
      done := 0;
    } else {
      tree, done := Replay(ops[..|ops| - 1]);
      done := ReplayOne(tree, ops, done);
    }
  }

  method ReplayOne<V>(tree: Tree<V>, ops: seq<Op<V>>, done: nat) returns (done': nat)
    requires tree.Valid() && ops != [] && Replayed(ops[..|ops| - 1], done, tree.t)
    modifies tree, tree.at.Values
    ensures tree.Valid() && Replayed(ops, done', tree.t)
    ensures forall x {:trigger tree.at[x]} :: x in tree.at ==> fresh(tree.at[x]) || tree.at[x] in old(tree.at.Values)
  {
    ghost var t := tree.t;
    var ok := false;
    if done == |ops| - 1 { ok := Advance(tree, ops[done]); }
    ReplayedMore(ops, done, t, tree.t, ok);
    done' := if ok then done + 1 else done;
  }

  /** One more operation, unless it is the failing one. */
  method Advance<V>(tree: Tree<V>, op: Op<V>) returns (ok: bool)
    requires tree.Valid() && KeysOk(tree.t)
    modifies tree, tree.at.Values
    ensures tree.Valid() && KeysOk(tree.t) && (ok <==> !Fails(old(tree.t), op))
    ensures if ok then Model(tree.t) == Apply(old(Model(tree.t)), op) else tree.t == old(tree.t)
    ensures forall x {:trigger tree.at[x]} :: x in tree.at ==> fresh(tree.at[x]) || tree.at[x] in old(tree.at.Values)
  {
    ok := true;
    if op.Delete? {
      var fails := tree.FailsNow(op.key);
      ok := !fails;
    }
    if ok { Perform(tree, op); }
  }

  method Perform<V>(tree: Tree<V>, op: Op<V>)
    requires tree.Valid() && KeysOk(tree.t) && !Fails(tree.t, op)
    modifies tree, tree.at.Values
    ensures tree.Valid() && KeysOk(tree.t) && Model(tree.t) == Apply(old(Model(tree.t)), op)
    ensures forall x {:trigger tree.at[x]} :: x in tree.at ==> fresh(tree.at[x]) || tree.at[x] in old(tree.at.Values)
  {
    match op
    case Insert(k, v) => var r := tree.Insert(k, v);
    case Delete(k) => var r := tree.Delete(k);
  }
}
