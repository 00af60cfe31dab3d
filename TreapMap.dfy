/** The `Treap` mapping of project/treap.py: a root subtree and the node
    counter that `__len__` reports. The node-level algorithms are the
    functions of TreapNodes; this class rewires its root to their results,
    as the Python methods do. */
module TreapMap {
  import opened Wrappers
  import opened TreapNodes

  class Treap<V> {
    var root: Tree<V>
    var countNodes: int

    /** The mapping invariant: the root is a treap and the counter equals its
        number of nodes. */
    ghost predicate Valid()
      reads this
    {
      IsTreap(root) && countNodes == |InOrder(root)|
    }

    /** The mapping the object stands for. */
    ghost function Contents(): map<Key, V>
      reads this
    {
      ToMap(root)
    }

    /** `__init__`: adopt a given root (or none) and count its nodes. */
    constructor (root: Tree<V>)
      ensures this.root == root && countNodes == |InOrder(root)|
      ensures IsTreap(root) ==> Valid()
      ensures Contents() == ToMap(root)
    {
      this.root := root;
      countNodes := CountNodes(root);
    }

    /** `__getitem__`: on a valid treap, the value the mapping holds for
        the key, and KeyError exactly when the key is absent. */
    function GetItem(key: Key): (r: Result<V>)
      reads this
      ensures r.Err? ==> r.error == KeyError
      ensures Valid() ==> r == if key in Contents() then Ok(Contents()[key]) else Err(KeyError)
    {
      assert Valid() ==> Get(root, key) == if key in Contents() then Ok(Contents()[key]) else Err(KeyError) by {
        if Valid() { GetFindsValue(root, key); }
      }
      Get(root, key)
    }

    /** `__contains__`: look the key up and turn KeyError into false; on a
        valid treap this is membership in the mapping. */
    function Contains(key: Key): (b: bool)
      reads this
      ensures Valid() ==> (b <==> key in Contents())
    {
      GetItem(key).Ok?
    }

    /** `__len__`: on a valid treap, the number of keys in the mapping. */
    function Len(): (n: int)
      reads this
      ensures Valid() ==> n == |Contents()|
    {
      assert Valid() ==> countNodes == |Contents()| by {
        if Valid() { NodeCountIsMapSize(root); }
      }
      countNodes
    }

    /** `__iter__`: the nodes in in-order; on a valid treap every entry of
        the mapping once, with its value, in strictly ascending key order. */
    function Iterate(): (s: seq<Entry<V>>)
      reads this
      ensures Valid() ==> Ascending(s) && |s| == |Contents()|
      ensures Valid() ==> forall i :: 0 <= i < |s| ==> s[i].key in Contents() && Contents()[s[i].key] == s[i].value
      ensures Valid() ==> forall x :: x in Contents() ==> exists i :: 0 <= i < |s| && s[i].key == x
    {
      var s := InOrder(root);
      assert Valid() ==> Ascending(s) && |s| == |Contents()| by {
        if Valid() { SearchTreeIffAscending(root); NodeCountIsMapSize(root); }
      }
      assert Valid() ==> forall i :: 0 <= i < |s| ==> s[i].key in Contents() && Contents()[s[i].key] == s[i].value by {
        if Valid() { WalkAgreesWithMap(root); }
      }
      assert forall x :: x in Contents() ==> exists i :: 0 <= i < |s| && s[i].key == x by {
        KeysAreWalked(root);
      }
      s
    }

    /** `__reversed__`: the nodes in reverse in-order, which is the
        in-order walk of `__iter__` back to front and, on a valid treap,
        strictly descending. */
    function Reversed(): (s: seq<Entry<V>>)
      reads this
      ensures |s| == |InOrder(root)|
      ensures forall i :: 0 <= i < |s| ==> s[i] == InOrder(root)[|s| - 1 - i]
      ensures Valid() ==> Descending(s)
    {
      assert Valid() ==> Descending(ReverseInOrder(root)) by {
        if Valid() { ReverseIsDescending(root); }
      }
      ReverseInOrder(root)
    }

    /** `__setitem__`: insert a fresh node with the given priority (drawn at
        random by the source) through `_set`, which bumps the counter when it
        creates a node. A present key keeps its node and gets the new value. */
    method SetItem(key: Key, value: V, priority: int)
      modifies this
      ensures root == Set(old(root), Entry(key, value, priority)).0
      ensures countNodes == old(countNodes) + if Set(old(root), Entry(key, value, priority)).1 then 1 else 0
      ensures old(Valid()) ==> Valid()
      ensures old(Valid()) ==> Contents() == old(Contents())[key := value]
      ensures old(Valid()) ==> countNodes == old(countNodes) + if key in old(Contents()) then 0 else 1
      ensures old(Valid()) && key in old(Contents()) ==> SameShape(old(root), root)
    {
      var (r, created) := Set(root, Entry(key, value, priority));
      if IsTreap(root) {
        SetKeepsTreap(root, Entry(key, value, priority));
        SetUpdatesMap(root, Entry(key, value, priority));
        if key in Keys(root) {
          SetExistingKeepsShape(root, Entry(key, value, priority));
        }
      }
      root := r;
      if created {
        countNodes := countNodes + 1;
      }
    }

    /** `__delitem__`: rebuild the root through `_del` and decrement the
        counter; a missing key raises KeyError before anything changes. */
    method DelItem(key: Key) returns (r: Outcome)
      modifies this
      ensures Del(old(root), key).Ok? ==>
        r == Success && root == Del(old(root), key).value && countNodes == old(countNodes) - 1
      ensures Del(old(root), key).Err? ==>
        r == Fail(KeyError) && root == old(root) && countNodes == old(countNodes)
      ensures old(Valid()) ==> Valid()
      ensures old(Valid()) ==> (r == Success <==> key in old(Contents()))
      ensures old(Valid()) ==> Contents() == old(Contents()) - {key}
    {
      match Del(root, key)
      case Err(e) =>
        if IsTreap(root) {
          DelRemovesKey(root, key);
        }
        return Fail(e);
      case Ok(t) =>
        if IsTreap(root) {
          DelRemovesKey(root, key);
          DelKeepsTreap(root, key);
        }
        root := t;
        countNodes := countNodes - 1;
        return Success;
    }
  }
}
