/** The node-level algorithms of the treap in project/treap.py.

    A subtree is a value: `_set`, `_del`, `split`, `merge` and the rotations
    take a subtree and return the root of the rebuilt subtree, which is what
    the Python code does with its `left`/`right` rewiring. The priority of a
    node is a parameter (the source draws it at random). */
module TreapNodes {
  import opened Wrappers

  /** Keys are any totally ordered Python values; reals cover the ints and
      floats used with the treap. */
  type Key = real

  /** `None` or a `TreapNode` owning its two children. */
  datatype Tree<V> = Leaf | Node(left: Tree<V>, key: Key, value: V, priority: int, right: Tree<V>)

  /** What one node holds: the item the iterators yield. */
  datatype Entry<V> = Entry(key: Key, value: V, priority: int)

  // ---------------------------------------------------------------------
  // Views of a subtree
  // ---------------------------------------------------------------------

  /** `_iter_gen`: the nodes, left subtree first, then the node, then the
      right subtree. The walk is empty exactly for an empty subtree, and
      the entry of the root is yielded. */
  function InOrder<V>(t: Tree<V>): (s: seq<Entry<V>>)
    ensures |s| == 0 <==> t == Leaf
    ensures t.Node? ==> Entry(t.key, t.value, t.priority) in s
  {
    match t
    case Leaf => []
    case Node(l, k, v, p, r) => InOrder(l) + [Entry(k, v, p)] + InOrder(r)
  }

  /** `_reversed_gen`: right subtree, node, left subtree; it yields the
      in-order walk back to front. */
  function ReverseInOrder<V>(t: Tree<V>): (s: seq<Entry<V>>)
    ensures |s| == |InOrder(t)|
    ensures forall i :: 0 <= i < |s| ==> s[i] == InOrder(t)[|s| - 1 - i]
  {
    match t
    case Leaf => []
    case Node(l, k, v, p, r) =>
      ReversedJoin(InOrder(l), Entry(k, v, p), InOrder(r), ReverseInOrder(l), ReverseInOrder(r));
      ReverseInOrder(r) + [Entry(k, v, p)] + ReverseInOrder(l)
  }

  /** Reversing `a + [e] + b` puts the reversal of `b` first and the
      reversal of `a` last. */
  lemma ReversedJoin<T>(a: seq<T>, e: T, b: seq<T>, ra: seq<T>, rb: seq<T>)
    requires |ra| == |a| && forall i :: 0 <= i < |ra| ==> ra[i] == a[|a| - 1 - i]
    requires |rb| == |b| && forall i :: 0 <= i < |rb| ==> rb[i] == b[|b| - 1 - i]
    ensures var s, f := rb + [e] + ra, a + [e] + b;
      |s| == |f| && forall i :: 0 <= i < |s| ==> s[i] == f[|s| - 1 - i]
  {
    var s, f := rb + [e] + ra, a + [e] + b;
    forall i | 0 <= i < |s| ensures s[i] == f[|s| - 1 - i] {
      if i < |b| {
        assert s[i] == rb[i];
      } else if i > |b| {
        assert s[i] == ra[i - |b| - 1];
      }
    }
  }

  /** The keys stored in a subtree. */
  function Keys<V>(t: Tree<V>): set<Key>
  {
    match t
    case Leaf => {}
    case Node(l, k, _, _, r) => Keys(l) + {k} + Keys(r)
  }

  /** The mapping a subtree stands for, as the `MutableMapping` interface
      exposes it. */
  function ToMap<V>(t: Tree<V>): (m: map<Key, V>)
    ensures m.Keys == Keys(t)
  {
    match t
    case Leaf => map[]
    case Node(l, k, v, _, r) => ToMap(l) + map[k := v] + ToMap(r)
  }

  /** `count_nodes`: a missing node counts 0, a node without children 1, any
      other node 1 plus its children's counts. */
  function CountNodes<V>(t: Tree<V>): (n: nat)
    ensures n == |InOrder(t)|
  {
    match t
    case Leaf => 0
    case Node(l, _, _, _, r) =>
      if l.Leaf? && r.Leaf? then 1 else 1 + CountNodes(l) + CountNodes(r)
  }

  // ---------------------------------------------------------------------
  // The two invariants
  // ---------------------------------------------------------------------

  /** Binary-search-tree order: every key on the left of a node is smaller
      than its key and every key on the right is larger. */
  ghost predicate SearchTree<V>(t: Tree<V>)
  {
    match t
    case Leaf => true
    case Node(l, k, _, _, r) =>
      && SearchTree(l) && SearchTree(r)
      && (forall x :: x in Keys(l) ==> x < k)
      && (forall x :: x in Keys(r) ==> k < x)
  }

  /** Heap order: no child has a higher priority than its parent. */
  ghost predicate HeapOrdered<V>(t: Tree<V>)
  {
    match t
    case Leaf => true
    case Node(l, _, _, p, r) =>
      && (l.Node? ==> l.priority <= p)
      && (r.Node? ==> r.priority <= p)
      && HeapOrdered(l) && HeapOrdered(r)
  }

  ghost predicate IsTreap<V>(t: Tree<V>)
  {
    SearchTree(t) && HeapOrdered(t)
  }

  /** Every priority in the subtree is at most b. */
  ghost predicate AtMost<V>(t: Tree<V>, b: int)
  {
    match t
    case Leaf => true
    case Node(l, _, _, p, r) => p <= b && AtMost(l, b) && AtMost(r, b)
  }

  ghost predicate Ascending<V>(s: seq<Entry<V>>)
  {
    forall i, j :: 0 <= i < j < |s| ==> s[i].key < s[j].key
  }

  ghost predicate Descending<V>(s: seq<Entry<V>>)
  {
    forall i, j :: 0 <= i < j < |s| ==> s[i].key > s[j].key
  }

  /** Two subtrees with the same nodes in the same places; values may differ. */
  ghost predicate SameShape<V>(t: Tree<V>, u: Tree<V>)
  {
    match t
    case Leaf => u.Leaf?
    case Node(l, k, _, p, r) =>
      u.Node? && u.key == k && u.priority == p && SameShape(l, u.left) && SameShape(r, u.right)
  }

  // ---------------------------------------------------------------------
  // The operations
  // ---------------------------------------------------------------------

  /** `_get`: descend by key comparison; reaching a missing child raises
      KeyError. */
  function Get<V>(t: Tree<V>, key: Key): (r: Result<V>)
    ensures r.Ok? ==> key in Keys(t)
    ensures r.Err? ==> r.error == KeyError
  {
    match t
    case Leaf => Err(KeyError)
    case Node(l, k, v, _, rt) =>
      if key < k then Get(l, key)
      else if key > k then Get(rt, key)
      else Ok(v)
  }

  /** `_rotate_right`: the left child takes the node's place and the node
      becomes its right child; ValueError when there is no left child. */
  function RotateRight<V>(t: Tree<V>): (r: Result<Tree<V>>)
    requires t.Node?
    ensures r.Ok? <==> t.left.Node?
    ensures r.Err? ==> r.error == ValueError
    ensures r.Ok? ==> InOrder(r.value) == InOrder(t)
    ensures r.Ok? ==> r.value.Node? && r.value.key == t.left.key && r.value.priority == t.left.priority
  {
    match t.left
    case Leaf => Err(ValueError)
    case Node(a, y, vy, py, b) => Ok(Node(a, y, vy, py, Node(b, t.key, t.value, t.priority, t.right)))
  }

  /** `_rotate_left`: the mirror image of RotateRight. */
  function RotateLeft<V>(t: Tree<V>): (r: Result<Tree<V>>)
    requires t.Node?
    ensures r.Ok? <==> t.right.Node?
    ensures r.Err? ==> r.error == ValueError
    ensures r.Ok? ==> InOrder(r.value) == InOrder(t)
    ensures r.Ok? ==> r.value.Node? && r.value.key == t.right.key && r.value.priority == t.right.priority
  {
    match t.right
    case Leaf => Err(ValueError)
    case Node(b, y, vy, py, c) => Ok(Node(Node(t.left, t.key, t.value, t.priority, b), y, vy, py, c))
  }

  /** `_set`: insert `node` as a new leaf, or overwrite the value of the node
      with its key; as the recursion unwinds, rotate a child whose priority
      exceeds its parent's. The flag says whether a node was created (the
      counter increment of `_set`). */
  function Set<V>(t: Tree<V>, node: Entry<V>): (r: (Tree<V>, bool))
    ensures r.0.Node?
    ensures |InOrder(r.0)| == |InOrder(t)| + (if r.1 then 1 else 0)
  {
    match t
    case Leaf => (Node(Leaf, node.key, node.value, node.priority, Leaf), true)
    case Node(l, k, v, p, rt) =>
      if node.key < k then
        var (l', created) := Set(l, node);
        var t' := Node(l', k, v, p, rt);
        if l'.priority > p then (RotateRight(t').value, created) else (t', created)
      else if node.key > k then
        var (r', created) := Set(rt, node);
        var t' := Node(l, k, v, p, r');
        if r'.priority > p then (RotateLeft(t').value, created) else (t', created)
      else
        (Node(l, k, node.value, p, rt), false)
  }

  /** `merge`: join two subtrees; the root with the strictly higher priority
      stays on top (on a tie the right one), and the other subtree is merged
      into its inner child. */
  function Merge<V>(l: Tree<V>, r: Tree<V>): (m: Tree<V>)
    ensures InOrder(m) == InOrder(l) + InOrder(r)
    decreases l, r
  {
    if l.Leaf? then r
    else if r.Leaf? then l
    else if l.priority > r.priority then
      var m := Merge(l.right, r);
      JoinAssoc(InOrder(l.left), [Entry(l.key, l.value, l.priority)], InOrder(l.right), InOrder(r));
      Node(l.left, l.key, l.value, l.priority, m)
    else
      var m := Merge(l, r.left);
      JoinAssoc(InOrder(l), InOrder(r.left), [Entry(r.key, r.value, r.priority)], InOrder(r.right));
      Node(m, r.key, r.value, r.priority, r.right)
  }

  lemma JoinAssoc<T>(a: seq<T>, b: seq<T>, c: seq<T>, d: seq<T>)
    ensures a + b + (c + d) == a + b + c + d
    ensures (a + b) + c + d == a + (b + c + d)
  {
  }

  /** `split`: cut a subtree into the nodes whose keys are less than `key`
      and the others. */
  function Split<V>(t: Tree<V>, key: Key): (r: (Tree<V>, Tree<V>))
    ensures InOrder(r.0) + InOrder(r.1) == InOrder(t)
  {
    match t
    case Leaf => (Leaf, Leaf)
    case Node(l, k, v, p, rt) =>
      if k < key then
        var (a, b) := Split(rt, key);
        (Node(l, k, v, p, a), b)
      else
        var (a, b) := Split(l, key);
        (a, Node(b, k, v, p, rt))
  }

  /** `_del`: descend by key comparison; the node with the key is replaced by
      the merge of its children; a missing key raises KeyError. */
  function Del<V>(t: Tree<V>, key: Key): (r: Result<Tree<V>>)
    ensures r.Ok? ==> |InOrder(r.value)| + 1 == |InOrder(t)|
    ensures r.Err? ==> r.error == KeyError
  {
    match t
    case Leaf => Err(KeyError)
    case Node(l, k, v, p, rt) =>
      if key < k then
        match Del(l, key)
        case Err(e) => Err(e)
        case Ok(l') => Ok(Node(l', k, v, p, rt))
      else if key > k then
        match Del(rt, key)
        case Err(e) => Err(e)
        case Ok(r') => Ok(Node(l, k, v, p, r'))
      else
        Ok(Merge(l, rt))
  }

  // ---------------------------------------------------------------------
  // Facts about the views
  // ---------------------------------------------------------------------

  /** The map built from a sequence of entries, later entries winning. */
  ghost function EntriesToMap<V>(s: seq<Entry<V>>): map<Key, V>
  {
    if s == [] then map[] else EntriesToMap(s[..|s| - 1])[s[|s| - 1].key := s[|s| - 1].value]
  }

  lemma {:induction false} EntriesToMapAppend<V>(a: seq<Entry<V>>, b: seq<Entry<V>>)
    ensures EntriesToMap(a + b) == EntriesToMap(a) + EntriesToMap(b)
  {
    if b != [] {
      var b' := b[..|b| - 1];
      assert (a + b)[..|a + b| - 1] == a + b';
      EntriesToMapAppend(a, b');
    } else {
      assert a + b == a;
    }
  }

  /** The map view is the in-order walk read as a mapping. */
  lemma {:induction false} ToMapIsInOrder<V>(t: Tree<V>)
    ensures ToMap(t) == EntriesToMap(InOrder(t))
  {
    match t
    case Leaf =>
    case Node(l, k, v, p, r) =>
      ToMapIsInOrder(l);
      ToMapIsInOrder(r);
      EntriesToMapAppend(InOrder(l), [Entry(k, v, p)]);
      EntriesToMapAppend(InOrder(l) + [Entry(k, v, p)], InOrder(r));
      assert EntriesToMap([Entry(k, v, p)]) == map[k := v] by {
        assert [Entry(k, v, p)][..0] == [];
      }
  }

  /** Every node yielded by the walk carries a key of the subtree, and every
      key of the subtree is yielded. */
  lemma KeysAreWalked<V>(t: Tree<V>)
    ensures forall i :: 0 <= i < |InOrder(t)| ==> InOrder(t)[i].key in Keys(t)
    ensures forall x :: x in Keys(t) ==> Yields(t, x)
  {
    WalkedKeysAreKeys(t);
    KeysAreYielded(t);
  }

  lemma {:induction false} WalkedKeysAreKeys<V>(t: Tree<V>)
    ensures forall i :: 0 <= i < |InOrder(t)| ==> InOrder(t)[i].key in Keys(t)
  {
    match t
    case Leaf =>
    case Node(l, k, v, p, r) =>
      WalkedKeysAreKeys(l);
      WalkedKeysAreKeys(r);
      var a, b, s := InOrder(l), InOrder(r), InOrder(t);
      assert s == a + [Entry(k, v, p)] + b;
      forall i | 0 <= i < |s| ensures s[i].key in Keys(t) {
        if i < |a| { assert s[i] == a[i]; }
        else if i > |a| { assert s[i] == b[i - |a| - 1]; }
      }
  }

  /** The walk of `t` yields a node with key `x`. */
  ghost predicate Yields<V>(t: Tree<V>, x: Key)
  {
    exists i :: 0 <= i < |InOrder(t)| && InOrder(t)[i].key == x
  }

  lemma {:induction false} KeysAreYielded<V>(t: Tree<V>)
    ensures forall x :: x in Keys(t) ==> Yields(t, x)
  {
    match t
    case Leaf =>
    case Node(l, k, v, p, r) =>
      KeysAreYielded(l);
      KeysAreYielded(r);
      var a, b, s := InOrder(l), InOrder(r), InOrder(t);
      assert s == a + [Entry(k, v, p)] + b;
      forall x | x in Keys(t) ensures Yields(t, x) {
        if x in Keys(l) {
          assert Yields(l, x);
          var i :| 0 <= i < |a| && a[i].key == x;
          assert s[i] == a[i];
        } else if x == k {
          assert s[|a|].key == x;
        } else {
          assert Yields(r, x);
          var i :| 0 <= i < |b| && b[i].key == x;
          assert s[|a| + 1 + i] == b[i];
        }
      }
  }

  /** The walk of a node is ascending when both sides are and the node's key
      lies between them. */
  lemma AscendingJoin<V>(a: seq<Entry<V>>, e: Entry<V>, b: seq<Entry<V>>)
    requires Ascending(a) && Ascending(b)
    requires forall i :: 0 <= i < |a| ==> a[i].key < e.key
    requires forall j :: 0 <= j < |b| ==> e.key < b[j].key
    ensures Ascending(a + [e] + b)
  {
    var s := a + [e] + b;
    forall i, j | 0 <= i < j < |s| ensures s[i].key < s[j].key {
      if j < |a| {
        assert s[i] == a[i] && s[j] == a[j];
      } else if j == |a| {
        assert s[i] == a[i];
      } else if i < |a| {
        assert s[i] == a[i] && s[j] == b[j - |a| - 1];
      } else if i == |a| {
        assert s[j] == b[j - |a| - 1];
      } else {
        assert s[i] == b[i - |a| - 1] && s[j] == b[j - |a| - 1];
      }
    }
  }

  /** Both sides of an ascending walk are ascending, and separated by the
      middle key. */
  lemma AscendingParts<V>(a: seq<Entry<V>>, e: Entry<V>, b: seq<Entry<V>>)
    requires Ascending(a + [e] + b)
    ensures Ascending(a) && Ascending(b)
    ensures forall i :: 0 <= i < |a| ==> a[i].key < e.key
    ensures forall j :: 0 <= j < |b| ==> e.key < b[j].key
  {
    var s := a + [e] + b;
    assert s[|a|] == e;
    forall i, j | 0 <= i < j < |a| ensures a[i].key < a[j].key {
      assert s[i] == a[i] && s[j] == a[j];
    }
    forall i, j | 0 <= i < j < |b| ensures b[i].key < b[j].key {
      assert s[|a| + 1 + i] == b[i] && s[|a| + 1 + j] == b[j];
    }
    forall i | 0 <= i < |a| ensures a[i].key < e.key {
      assert s[i] == a[i];
    }
    forall j | 0 <= j < |b| ensures e.key < b[j].key {
      assert s[|a| + 1 + j] == b[j];
    }
  }

  /** Forward iteration yields strictly ascending keys exactly when the
      subtree is in search-tree order. */
  lemma {:induction false} SearchTreeIffAscending<V>(t: Tree<V>)
    ensures SearchTree(t) <==> Ascending(InOrder(t))
  {
    match t
    case Leaf =>
    case Node(l, k, v, p, r) =>
      SearchTreeIffAscending(l);
      SearchTreeIffAscending(r);
      KeysAreWalked(l);
      KeysAreWalked(r);
      var a, b := InOrder(l), InOrder(r);
      assert InOrder(t) == a + [Entry(k, v, p)] + b;
      if SearchTree(t) {
        AscendingJoin(a, Entry(k, v, p), b);
      }
      if Ascending(InOrder(t)) {
        AscendingParts(a, Entry(k, v, p), b);
        forall x | x in Keys(l) ensures x < k {
          var i :| 0 <= i < |a| && a[i].key == x;
        }
        forall x | x in Keys(r) ensures k < x {
          var i :| 0 <= i < |b| && b[i].key == x;
        }
      }
  }

  /** Reverse iteration of a search tree yields strictly descending keys. */
  lemma ReverseIsDescending<V>(t: Tree<V>)
    requires SearchTree(t)
    ensures Descending(ReverseInOrder(t))
  {
    SearchTreeIffAscending(t);
    var s, f := ReverseInOrder(t), InOrder(t);
    forall i, j | 0 <= i < j < |s| ensures s[i].key > s[j].key {
      assert s[i] == f[|s| - 1 - i] && s[j] == f[|s| - 1 - j];
    }
  }

  /** In a search tree, each node the walk yields holds the value the
      mapping gives its key. */
  lemma {:induction false} WalkAgreesWithMap<V>(t: Tree<V>)
    requires SearchTree(t)
    ensures forall i :: 0 <= i < |InOrder(t)| ==>
      InOrder(t)[i].key in ToMap(t) && ToMap(t)[InOrder(t)[i].key] == InOrder(t)[i].value
  {
    match t
    case Leaf =>
    case Node(l, k, v, p, r) =>
      WalkAgreesWithMap(l);
      WalkAgreesWithMap(r);
      KeysAreWalked(l);
      var a, b, s := InOrder(l), InOrder(r), InOrder(t);
      forall i | 0 <= i < |s| ensures s[i].key in ToMap(t) && ToMap(t)[s[i].key] == s[i].value {
        if i < |a| {
          assert s[i] == a[i];
          assert a[i].key in Keys(l);
          assert a[i].key !in Keys(r) && a[i].key != k;
        } else if i > |a| {
          assert s[i] == b[i - |a| - 1];
        }
      }
  }

  /** Subtrees with the same in-order walk hold the same mapping and are
      search trees together. */
  lemma SameWalk<V>(t: Tree<V>, u: Tree<V>)
    requires InOrder(t) == InOrder(u)
    ensures ToMap(t) == ToMap(u) && Keys(t) == Keys(u)
    ensures SearchTree(t) <==> SearchTree(u)
  {
    ToMapIsInOrder(t);
    ToMapIsInOrder(u);
    SearchTreeIffAscending(t);
    SearchTreeIffAscending(u);
  }

  /** In a search tree the counter (the node count) equals the number of
      keys stored. */
  lemma {:induction false} NodeCountIsMapSize<V>(t: Tree<V>)
    requires SearchTree(t)
    ensures |InOrder(t)| == |ToMap(t)|
  {
    NodeCountIsKeyCount(t);
    assert |ToMap(t)| == |ToMap(t).Keys|;
  }

  lemma {:induction false} NodeCountIsKeyCount<V>(t: Tree<V>)
    requires SearchTree(t)
    ensures |InOrder(t)| == |Keys(t)|
  {
    match t
    case Leaf =>
    case Node(l, k, v, p, r) =>
      NodeCountIsKeyCount(l);
      NodeCountIsKeyCount(r);
      var kl, kr := Keys(l), Keys(r);
      assert k !in kl && k !in kr;
      assert kl !! kr by {
        forall x | x in kl ensures x !in kr { assert x < k; }
      }
      assert |kl + {k}| == |kl| + 1;
      assert (kl + {k}) !! kr;
      assert |kl + {k} + kr| == |kl + {k}| + |kr|;
  }

  lemma AtMostWeaken<V>(t: Tree<V>, a: int, b: int)
    requires AtMost(t, a) && a <= b
    ensures AtMost(t, b)
  {
  }

  /** In a heap-ordered subtree the root has the highest priority. */
  lemma {:induction false} HeapRootIsMax<V>(t: Tree<V>)
    requires HeapOrdered(t) && t.Node?
    ensures AtMost(t, t.priority)
  {
    if t.left.Node? {
      HeapRootIsMax(t.left);
      AtMostWeaken(t.left, t.left.priority, t.priority);
    }
    if t.right.Node? {
      HeapRootIsMax(t.right);
      AtMostWeaken(t.right, t.right.priority, t.priority);
    }
  }

  lemma SameShapeReflexive<V>(t: Tree<V>)
    ensures SameShape(t, t)
  {
  }

  // ---------------------------------------------------------------------
  // Map algebra for a node's view (left part + node + right part)
  // ---------------------------------------------------------------------

  lemma UpdateInLeft<V>(a: map<Key, V>, b: map<Key, V>, c: map<Key, V>, x: Key, y: V)
    requires x !in b && x !in c
    ensures a[x := y] + b + c == (a + b + c)[x := y]
  {
  }

  lemma UpdateInRight<V>(a: map<Key, V>, b: map<Key, V>, c: map<Key, V>, x: Key, y: V)
    ensures a + b + c[x := y] == (a + b + c)[x := y]
  {
  }

  lemma RemoveFromLeft<V>(a: map<Key, V>, b: map<Key, V>, c: map<Key, V>, x: Key)
    requires x !in b && x !in c
    ensures (a - {x}) + b + c == (a + b + c) - {x}
  {
  }

  lemma RemoveFromRight<V>(a: map<Key, V>, b: map<Key, V>, c: map<Key, V>, x: Key)
    requires x !in a && x !in b
    ensures a + b + (c - {x}) == (a + b + c) - {x}
  {
  }

  lemma OverwriteMiddle<V>(a: map<Key, V>, c: map<Key, V>, x: Key, y: V, z: V)
    requires x !in c
    ensures (a + map[x := y] + c)[x := z] == a + map[x := z] + c
  {
  }

  lemma RemoveMiddle<V>(a: map<Key, V>, c: map<Key, V>, x: Key, y: V)
    requires x !in a && x !in c
    ensures a + c == (a + map[x := y] + c) - {x}
  {
  }

  // ---------------------------------------------------------------------
  // Lookup
  // ---------------------------------------------------------------------

  /** On a search tree `_get` returns the value stored with the key and
      raises KeyError exactly when the key is absent. */
  lemma {:induction false} GetFindsValue<V>(t: Tree<V>, key: Key)
    requires SearchTree(t)
    ensures Get(t, key) == if key in ToMap(t) then Ok(ToMap(t)[key]) else Err(KeyError)
  {
    match t
    case Leaf =>
    case Node(l, k, v, p, r) =>
      if key < k {
        GetFindsValue(l, key);
        assert key !in Keys(r);
      } else if key > k {
        GetFindsValue(r, key);
        assert key !in Keys(l);
      }
  }

  // ---------------------------------------------------------------------
  // Insertion
  // ---------------------------------------------------------------------

  /** `_set` on a search tree: the result is a search tree holding the old
      mapping updated at the key, and a node is created exactly when the key
      was absent. */
  lemma {:induction false} SetUpdatesMap<V>(t: Tree<V>, node: Entry<V>)
    requires SearchTree(t)
    ensures SearchTree(Set(t, node).0)
    ensures ToMap(Set(t, node).0) == ToMap(t)[node.key := node.value]
    ensures Set(t, node).1 <==> node.key !in Keys(t)
  {
    match t
    case Leaf =>
    case Node(l, k, v, p, rt) =>
      if node.key < k {
        SetUpdatesMap(l, node);
        SetIntoLeft(t, node);
      } else if node.key > k {
        SetUpdatesMap(rt, node);
        SetIntoRight(t, node);
      } else {
        SetAtRoot(t, node);
      }
  }

  /** The base step of SetUpdatesMap: the key is the root's, whose value is
      overwritten in place. */
  lemma SetAtRoot<V>(t: Tree<V>, node: Entry<V>)
    requires SearchTree(t) && t.Node? && node.key == t.key
    ensures SearchTree(Set(t, node).0)
    ensures ToMap(Set(t, node).0) == ToMap(t)[node.key := node.value]
    ensures !Set(t, node).1 && node.key in Keys(t)
  {
    var Node(l, k, v, p, rt) := t;
    var t' := Node(l, k, node.value, p, rt);
    assert Set(t, node) == (t', false);
    assert k !in Keys(rt);
    OverwriteMiddle(ToMap(l), ToMap(rt), k, v, node.value);
  }

  /** The step of SetUpdatesMap for a key that goes to the left. */
  lemma SetIntoLeft<V>(t: Tree<V>, node: Entry<V>)
    requires SearchTree(t) && t.Node? && node.key < t.key
    requires SearchTree(Set(t.left, node).0)
    requires ToMap(Set(t.left, node).0) == ToMap(t.left)[node.key := node.value]
    requires Set(t.left, node).1 <==> node.key !in Keys(t.left)
    ensures SearchTree(Set(t, node).0)
    ensures ToMap(Set(t, node).0) == ToMap(t)[node.key := node.value]
    ensures Set(t, node).1 <==> node.key !in Keys(t)
  {
    var Node(l, k, v, p, rt) := t;
    var (l', c) := Set(l, node);
    var t' := Node(l', k, v, p, rt);
    SetLeftStep(l, l', k, v, p, rt, node.key, node.value);
    if l'.priority > p {
      var res := RotateRight(t').value;
      assert Set(t, node) == (res, c);
      SameWalk(t', res);
    } else {
      assert Set(t, node) == (t', c);
    }
  }

  /** The step of SetUpdatesMap for a key that goes to the right. */
  lemma SetIntoRight<V>(t: Tree<V>, node: Entry<V>)
    requires SearchTree(t) && t.Node? && node.key > t.key
    requires SearchTree(Set(t.right, node).0)
    requires ToMap(Set(t.right, node).0) == ToMap(t.right)[node.key := node.value]
    requires Set(t.right, node).1 <==> node.key !in Keys(t.right)
    ensures SearchTree(Set(t, node).0)
    ensures ToMap(Set(t, node).0) == ToMap(t)[node.key := node.value]
    ensures Set(t, node).1 <==> node.key !in Keys(t)
  {
    var Node(l, k, v, p, rt) := t;
    var (r', c) := Set(rt, node);
    var t' := Node(l, k, v, p, r');
    SetRightStep(l, k, v, p, rt, r', node.key, node.value);
    if r'.priority > p {
      var res := RotateLeft(t').value;
      assert Set(t, node) == (res, c);
      SameWalk(t', res);
    } else {
      assert Set(t, node) == (t', c);
    }
  }

  /** Replacing the left child by one holding the update of key `x < k`
      keeps search-tree order and updates the node's mapping. */
  lemma SetLeftStep<V>(l: Tree<V>, l': Tree<V>, k: Key, v: V, p: int, rt: Tree<V>, x: Key, y: V)
    requires SearchTree(Node(l, k, v, p, rt)) && x < k
    requires SearchTree(l') && ToMap(l') == ToMap(l)[x := y]
    ensures SearchTree(Node(l', k, v, p, rt))
    ensures ToMap(Node(l', k, v, p, rt)) == ToMap(Node(l, k, v, p, rt))[x := y]
    ensures x in Keys(Node(l, k, v, p, rt)) <==> x in Keys(l)
  {
    assert x !in Keys(rt);
    assert Keys(l') == Keys(l) + {x};
    forall z | z in Keys(l') ensures z < k {
    }
    UpdateInLeft(ToMap(l), map[k := v], ToMap(rt), x, y);
  }

  /** The mirror image of SetLeftStep for a key `x > k`. */
  lemma SetRightStep<V>(l: Tree<V>, k: Key, v: V, p: int, rt: Tree<V>, r': Tree<V>, x: Key, y: V)
    requires SearchTree(Node(l, k, v, p, rt)) && x > k
    requires SearchTree(r') && ToMap(r') == ToMap(rt)[x := y]
    ensures SearchTree(Node(l, k, v, p, r'))
    ensures ToMap(Node(l, k, v, p, r')) == ToMap(Node(l, k, v, p, rt))[x := y]
    ensures x in Keys(Node(l, k, v, p, rt)) <==> x in Keys(rt)
  {
    assert x !in Keys(l);
    assert Keys(r') == Keys(rt) + {x};
    forall z | z in Keys(r') ensures k < z {
    }
    UpdateInRight(ToMap(l), map[k := v], ToMap(rt), x, y);
  }

  /** `_set` keeps heap order. When the root of the result has a higher
      priority than the old root, the new node was rotated up to the root and
      everything below it came from the old subtree. */
  lemma {:induction false} SetKeepsHeap<V>(t: Tree<V>, node: Entry<V>)
    requires HeapOrdered(t)
    ensures HeapOrdered(Set(t, node).0)
    ensures t.Node? && Set(t, node).0.priority > t.priority ==>
      AtMost(Set(t, node).0.left, t.priority) && AtMost(Set(t, node).0.right, t.priority)
  {
    match t
    case Leaf =>
    case Node(l, k, v, p, rt) =>
      if node.key < k {
        SetKeepsHeap(l, node);
        SetHeapLeft(t, node);
      } else if node.key > k {
        SetKeepsHeap(rt, node);
        SetHeapRight(t, node);
      } else {
        assert Set(t, node).0 == Node(l, k, node.value, p, rt);
      }
  }

  /** The step of SetKeepsHeap for a key that goes to the left: if the
      updated child outranks the node, the right rotation lifts it and the
      old node, with everything below it, sits under it. */
  lemma SetHeapLeft<V>(t: Tree<V>, node: Entry<V>)
    requires HeapOrdered(t) && t.Node? && node.key < t.key
    requires HeapOrdered(Set(t.left, node).0)
    requires t.left.Node? && Set(t.left, node).0.priority > t.left.priority ==>
      AtMost(Set(t.left, node).0.left, t.left.priority) && AtMost(Set(t.left, node).0.right, t.left.priority)
    ensures HeapOrdered(Set(t, node).0)
    ensures Set(t, node).0.priority > t.priority ==>
      AtMost(Set(t, node).0.left, t.priority) && AtMost(Set(t, node).0.right, t.priority)
  {
    var Node(l, k, v, p, rt) := t;
    var (c, created) := Set(l, node);
    var t' := Node(c, k, v, p, rt);
    if c.priority > p {
      if l.Node? {
        AtMostWeaken(c.left, l.priority, p);
        AtMostWeaken(c.right, l.priority, p);
      }
      if rt.Node? {
        HeapRootIsMax(rt);
        AtMostWeaken(rt, rt.priority, p);
      }
      var res := Node(c.left, c.key, c.value, c.priority, Node(c.right, k, v, p, rt));
      assert RotateRight(t').value == res;
      assert Set(t, node).0 == res;
    } else {
      assert Set(t, node).0 == t';
    }
  }

  /** The mirror image of SetHeapLeft. */
  lemma SetHeapRight<V>(t: Tree<V>, node: Entry<V>)
    requires HeapOrdered(t) && t.Node? && node.key > t.key
    requires HeapOrdered(Set(t.right, node).0)
    requires t.right.Node? && Set(t.right, node).0.priority > t.right.priority ==>
      AtMost(Set(t.right, node).0.left, t.right.priority) && AtMost(Set(t.right, node).0.right, t.right.priority)
    ensures HeapOrdered(Set(t, node).0)
    ensures Set(t, node).0.priority > t.priority ==>
      AtMost(Set(t, node).0.left, t.priority) && AtMost(Set(t, node).0.right, t.priority)
  {
    var Node(l, k, v, p, rt) := t;
    var (c, created) := Set(rt, node);
    var t' := Node(l, k, v, p, c);
    if c.priority > p {
      if rt.Node? {
        AtMostWeaken(c.left, rt.priority, p);
        AtMostWeaken(c.right, rt.priority, p);
      }
      if l.Node? {
        HeapRootIsMax(l);
        AtMostWeaken(l, l.priority, p);
      }
      var res := Node(Node(l, k, v, p, c.left), c.key, c.value, c.priority, c.right);
      assert RotateLeft(t').value == res;
      assert Set(t, node).0 == res;
    } else {
      assert Set(t, node).0 == t';
    }
  }

  /** `_set` keeps a treap a treap, stores the value, and adds one node
      exactly for a new key. */
  lemma SetKeepsTreap<V>(t: Tree<V>, node: Entry<V>)
    requires IsTreap(t)
    ensures IsTreap(Set(t, node).0)
    ensures ToMap(Set(t, node).0) == ToMap(t)[node.key := node.value]
    ensures |InOrder(Set(t, node).0)| == |InOrder(t)| + (if node.key in Keys(t) then 0 else 1)
  {
    SetUpdatesMap(t, node);
    SetKeepsHeap(t, node);
  }

  /** Setting a key that is already present rotates nothing and creates no
      node: only that node's value changes. */
  lemma {:induction false} SetExistingKeepsShape<V>(t: Tree<V>, node: Entry<V>)
    requires IsTreap(t) && node.key in Keys(t)
    ensures !Set(t, node).1 && SameShape(t, Set(t, node).0)
  {
    match t
    case Node(l, k, v, p, rt) =>
      if node.key < k {
        assert node.key !in Keys(rt);
        SetExistingKeepsShape(l, node);
        SameShapeReflexive(rt);
      } else if node.key > k {
        assert node.key !in Keys(l);
        SetExistingKeepsShape(rt, node);
        SameShapeReflexive(l);
      } else {
        SameShapeReflexive(l);
        SameShapeReflexive(rt);
      }
  }

  // ---------------------------------------------------------------------
  // Merge
  // ---------------------------------------------------------------------

  /** An empty side yields the other side; otherwise the root comes from the
      side whose root priority is strictly higher, and on a tie from `r`. */
  lemma MergeRoot<V>(l: Tree<V>, r: Tree<V>)
    ensures l.Leaf? ==> Merge(l, r) == r
    ensures r.Leaf? ==> Merge(l, r) == l
    ensures l.Node? && r.Node? ==>
      Merge(l, r).Node? &&
      if l.priority > r.priority
      then Merge(l, r).key == l.key && Merge(l, r).priority == l.priority
      else Merge(l, r).key == r.key && Merge(l, r).priority == r.priority
  {
  }

  /** Merging two search trees whose keys are ordered (all of `l` below all
      of `r`) gives a search tree holding both mappings. */
  lemma MergeJoinsMaps<V>(l: Tree<V>, r: Tree<V>)
    requires SearchTree(l) && SearchTree(r)
    requires forall x, y :: x in Keys(l) && y in Keys(r) ==> x < y
    ensures SearchTree(Merge(l, r))
    ensures ToMap(Merge(l, r)) == ToMap(l) + ToMap(r)
  {
    var a, b := InOrder(l), InOrder(r);
    SearchTreeIffAscending(l);
    SearchTreeIffAscending(r);
    KeysAreWalked(l);
    KeysAreWalked(r);
    forall i, j | 0 <= i < |a| && 0 <= j < |b| ensures a[i].key < b[j].key {
      assert a[i].key in Keys(l) && b[j].key in Keys(r);
    }
    AscendingConcat(a, b);
    SearchTreeIffAscending(Merge(l, r));
    ToMapIsInOrder(l);
    ToMapIsInOrder(r);
    ToMapIsInOrder(Merge(l, r));
    EntriesToMapAppend(a, b);
  }

  lemma AscendingConcat<V>(a: seq<Entry<V>>, b: seq<Entry<V>>)
    requires Ascending(a) && Ascending(b)
    requires forall i, j :: 0 <= i < |a| && 0 <= j < |b| ==> a[i].key < b[j].key
    ensures Ascending(a + b)
  {
    var s := a + b;
    forall i, j | 0 <= i < j < |s| ensures s[i].key < s[j].key {
      if j < |a| {
        assert s[i] == a[i] && s[j] == a[j];
      } else if i < |a| {
        assert s[i] == a[i] && s[j] == b[j - |a|];
      } else {
        assert s[i] == b[i - |a|] && s[j] == b[j - |a|];
      }
    }
  }

  /** A bound on both sides bounds the merge. */
  lemma {:induction false} MergeAtMost<V>(l: Tree<V>, r: Tree<V>, b: int)
    requires AtMost(l, b) && AtMost(r, b)
    ensures AtMost(Merge(l, r), b)
    decreases l, r
  {
    if l.Node? && r.Node? {
      if l.priority > r.priority {
        MergeAtMost(l.right, r, b);
      } else {
        MergeAtMost(l, r.left, b);
      }
    }
  }

  /** Merging two heap-ordered subtrees gives a heap-ordered subtree. */
  lemma {:induction false} MergeKeepsHeap<V>(l: Tree<V>, r: Tree<V>)
    requires HeapOrdered(l) && HeapOrdered(r)
    ensures HeapOrdered(Merge(l, r))
    decreases l, r
  {
    if l.Node? && r.Node? {
      HeapRootIsMax(l);
      HeapRootIsMax(r);
      if l.priority > r.priority {
        MergeKeepsHeap(l.right, r);
        AtMostWeaken(r, r.priority, l.priority);
        MergeAtMost(l.right, r, l.priority);
      } else {
        MergeKeepsHeap(l, r.left);
        AtMostWeaken(l, l.priority, r.priority);
        MergeAtMost(l, r.left, r.priority);
      }
    }
  }

  // ---------------------------------------------------------------------
  // Split
  // ---------------------------------------------------------------------

  /** `split` of a search tree: every key on the left is below `key`, every
      key on the right is at least `key`, and no key is lost. */
  lemma {:induction false} SplitSeparatesKeys<V>(t: Tree<V>, key: Key)
    requires SearchTree(t)
    ensures forall x :: x in Keys(Split(t, key).0) ==> x < key
    ensures forall x :: x in Keys(Split(t, key).1) ==> key <= x
    ensures Keys(Split(t, key).0) + Keys(Split(t, key).1) == Keys(t)
  {
    match t
    case Leaf =>
    case Node(l, k, v, p, rt) =>
      if k < key {
        SplitSeparatesKeys(rt, key);
      } else {
        SplitSeparatesKeys(l, key);
      }
  }

  /** A bound on the subtree bounds both parts of its split. */
  lemma {:induction false} SplitAtMost<V>(t: Tree<V>, key: Key, b: int)
    requires AtMost(t, b)
    ensures AtMost(Split(t, key).0, b) && AtMost(Split(t, key).1, b)
  {
    match t
    case Leaf =>
    case Node(l, k, v, p, rt) =>
      if k < key {
        SplitAtMost(rt, key, b);
      } else {
        SplitAtMost(l, key, b);
      }
  }

  /** Both parts of a split heap-ordered subtree are heap ordered. */
  lemma {:induction false} SplitKeepsHeap<V>(t: Tree<V>, key: Key)
    requires HeapOrdered(t)
    ensures HeapOrdered(Split(t, key).0) && HeapOrdered(Split(t, key).1)
  {
    match t
    case Leaf =>
    case Node(l, k, v, p, rt) =>
      HeapRootIsMax(t);
      if k < key {
        SplitKeepsHeap(rt, key);
        SplitAtMost(rt, key, p);
      } else {
        SplitKeepsHeap(l, key);
        SplitAtMost(l, key, p);
      }
  }

  /** `split` of a treap gives two treaps whose mappings partition the
      original one at `key`, with node counts adding up. */
  lemma SplitPartitions<V>(t: Tree<V>, key: Key)
    requires IsTreap(t)
    ensures IsTreap(Split(t, key).0) && IsTreap(Split(t, key).1)
    ensures forall x :: x in Keys(Split(t, key).0) ==> x < key
    ensures forall x :: x in Keys(Split(t, key).1) ==> key <= x
    ensures ToMap(t) == ToMap(Split(t, key).0) + ToMap(Split(t, key).1)
    ensures |InOrder(Split(t, key).0)| + |InOrder(Split(t, key).1)| == |InOrder(t)|
  {
    var (a, b) := Split(t, key);
    SplitSeparatesKeys(t, key);
    SplitKeepsHeap(t, key);
    SearchTreeIffAscending(t);
    AscendingPrefixSuffix(InOrder(a), InOrder(b));
    SearchTreeIffAscending(a);
    SearchTreeIffAscending(b);
    ToMapIsInOrder(t);
    ToMapIsInOrder(a);
    ToMapIsInOrder(b);
    EntriesToMapAppend(InOrder(a), InOrder(b));
  }

  lemma AscendingPrefixSuffix<V>(a: seq<Entry<V>>, b: seq<Entry<V>>)
    requires Ascending(a + b)
    ensures Ascending(a) && Ascending(b)
  {
    var s := a + b;
    forall i, j | 0 <= i < j < |a| ensures a[i].key < a[j].key {
      assert s[i] == a[i] && s[j] == a[j];
    }
    forall i, j | 0 <= i < j < |b| ensures b[i].key < b[j].key {
      assert s[|a| + i] == b[i] && s[|a| + j] == b[j];
    }
  }

  /** Merging the two parts of a split treap gives back a treap with the
      same walk and mapping: merge undoes split. */
  lemma MergeUndoesSplit<V>(t: Tree<V>, key: Key)
    requires IsTreap(t)
    ensures IsTreap(Merge(Split(t, key).0, Split(t, key).1))
    ensures InOrder(Merge(Split(t, key).0, Split(t, key).1)) == InOrder(t)
    ensures ToMap(Merge(Split(t, key).0, Split(t, key).1)) == ToMap(t)
  {
    var (a, b) := Split(t, key);
    SplitPartitions(t, key);
    MergeJoinsMaps(a, b);
    MergeKeepsHeap(a, b);
  }

  // ---------------------------------------------------------------------
  // Deletion
  // ---------------------------------------------------------------------

  /** `_del` on a search tree raises KeyError exactly when the key is
      absent; otherwise the result is a search tree without that key and
      with every other entry unchanged. */
  lemma {:induction false} DelRemovesKey<V>(t: Tree<V>, key: Key)
    requires SearchTree(t)
    ensures Del(t, key).Ok? <==> key in Keys(t)
    ensures Del(t, key).Ok? ==> SearchTree(Del(t, key).value) && ToMap(Del(t, key).value) == ToMap(t) - {key}
  {
    match t
    case Leaf =>
    case Node(l, k, v, p, rt) =>
      if key < k {
        DelRemovesKey(l, key);
        assert key !in Keys(rt);
        if key in Keys(l) {
          var l' := Del(l, key).value;
          assert Keys(l') == Keys(l) - {key};
          assert SearchTree(Node(l', k, v, p, rt));
          RemoveFromLeft(ToMap(l), map[k := v], ToMap(rt), key);
        }
      } else if key > k {
        DelRemovesKey(rt, key);
        assert key !in Keys(l);
        if key in Keys(rt) {
          var r' := Del(rt, key).value;
          assert Keys(r') == Keys(rt) - {key};
          assert SearchTree(Node(l, k, v, p, r'));
          RemoveFromRight(ToMap(l), map[k := v], ToMap(rt), key);
        }
      } else {
        forall x, y | x in Keys(l) && y in Keys(rt) ensures x < y {
        }
        MergeJoinsMaps(l, rt);
        RemoveMiddle(ToMap(l), ToMap(rt), k, v);
      }
  }

  /** A bound on the subtree bounds what `_del` leaves of it. */
  lemma {:induction false} DelAtMost<V>(t: Tree<V>, key: Key, b: int)
    requires AtMost(t, b) && Del(t, key).Ok?
    ensures AtMost(Del(t, key).value, b)
  {
    match t
    case Node(l, k, v, p, rt) =>
      if key < k {
        DelAtMost(l, key, b);
      } else if key > k {
        DelAtMost(rt, key, b);
      } else {
        MergeAtMost(l, rt, b);
      }
  }

  /** `_del` keeps heap order. */
  lemma {:induction false} DelKeepsHeap<V>(t: Tree<V>, key: Key)
    requires HeapOrdered(t) && Del(t, key).Ok?
    ensures HeapOrdered(Del(t, key).value)
  {
    match t
    case Node(l, k, v, p, rt) =>
      HeapRootIsMax(t);
      if key < k {
        DelKeepsHeap(l, key);
        DelAtMost(l, key, p);
      } else if key > k {
        DelKeepsHeap(rt, key);
        DelAtMost(rt, key, p);
      } else {
        MergeKeepsHeap(l, rt);
      }
  }

  /** `_del` of a present key keeps a treap a treap, removes exactly that key
      and one node. */
  lemma DelKeepsTreap<V>(t: Tree<V>, key: Key)
    requires IsTreap(t) && key in Keys(t)
    ensures Del(t, key).Ok?
    ensures IsTreap(Del(t, key).value)
    ensures ToMap(Del(t, key).value) == ToMap(t) - {key}
    ensures |InOrder(Del(t, key).value)| + 1 == |InOrder(t)|
  {
    DelRemovesKey(t, key);
    DelKeepsHeap(t, key);
  }
}
