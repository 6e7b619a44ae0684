/** The recursive walks that the tree's methods run from its root (the inner functions
    `searchRecursive`, `insertRecursive`, `deleteRecursive`, `minRecursive`, `maxRecursive`,
    `heightRecursive`, `logRecursive`, `getFullNodesRecursive` and `getLeafNodesRecursive`),
    and what they promise on a binary search tree. `<` and `>` compare keys; `===` compares
    whole values. */
module Walks {
  import opened Values
  import opened Nodes

  /** Strict binary-search-tree order: every key left of a node is smaller than the node's,
      every key right of it is larger. */
  ghost predicate IsBST(t: Node)
  {
    match t
    case Nil => true
    case Node(l, d, r) =>
      && IsBST(l) && IsBST(r)
      && (forall k :: k in Keys(l) ==> k < d.key)
      && (forall k :: k in Keys(r) ==> d.key < k)
  }

  /** In a subtree whose values all have the tag of `v`, holding `v` and holding its key are
      the same thing. */
  lemma {:induction false} TaggedMembership(t: Node, v: Value)
    requires AllTagged(t, v.tag)
    ensures v in ValuesOf(t) <==> v.key in Keys(t)
  {
    match t
    case Nil =>
    case Node(l, d, r) =>
      assert AllTagged(l, v.tag) && AllTagged(r, v.tag) && d.tag == v.tag;
      TaggedMembership(l, v);
      TaggedMembership(r, v);
  }

  // ---------------------------------------------------------------- search

  /** `searchRecursive`: the node holding `v`, found by descending right past smaller data
      and left otherwise, or `Nil`. */
  function SearchRecursive(t: Node, v: Value): (r: Node)
    ensures r != Nil ==> r.data == v && r in PreOrder(t)
  {
    if t == Nil || t.data == v then t
    else if t.data.key < v.key then SearchRecursive(t.right, v)
    else SearchRecursive(t.left, v)
  }

  /** On a binary search tree whose values share the tag of `v`, the search finds a node
      exactly when `v` is stored. */
  lemma {:induction false} SearchFindsStoredValue(t: Node, v: Value)
    requires IsBST(t) && AllTagged(t, v.tag)
    ensures SearchRecursive(t, v) != Nil <==> v in ValuesOf(t)
  {
    match t
    case Nil =>
    case Node(l, d, r) =>
      assert AllTagged(l, v.tag) && AllTagged(r, v.tag);
      if d == v {
      } else if d.key < v.key {
        SearchFindsStoredValue(r, v);
        assert v !in ValuesOf(l);
      } else {
        assert d.tag == v.tag;
        assert d.key > v.key;
        SearchFindsStoredValue(l, v);
        assert v !in ValuesOf(r);
      }
  }

  // ---------------------------------------------------------------- insert

  /** `insertRecursive`: a new leaf for `v` at the empty link where the descent ends; when
      the descent meets a node whose data is neither smaller nor larger than `v`, nothing
      changes. */
  function InsertRecursive(t: Node, v: Value): (r: Node)
    ensures r.Node?
    ensures Keys(r) == Keys(t) + {v.key}
    ensures ValuesOf(t) <= ValuesOf(r) <= ValuesOf(t) + {v}
  {
    match t
    case Nil => Node(Nil, v, Nil)
    case Node(l, d, rt) =>
      if d.key < v.key then Node(l, d, InsertRecursive(rt, v))
      else if d.key > v.key then Node(InsertRecursive(l, v), d, rt)
      else t
  }

  /** Inserting keeps the binary-search-tree order. */
  lemma {:induction false} InsertKeepsOrder(t: Node, v: Value)
    requires IsBST(t)
    ensures IsBST(InsertRecursive(t, v))
  {
    match t
    case Nil =>
    case Node(l, d, r) =>
      if d.key < v.key {
        InsertKeepsOrder(r, v);
      } else if d.key > v.key {
        InsertKeepsOrder(l, v);
      }
  }

  /** Inserting a key already present changes nothing; inserting a new one adds exactly `v`
      and one node. */
  lemma {:induction false} InsertContents(t: Node, v: Value)
    requires IsBST(t)
    ensures v.key in Keys(t) ==> InsertRecursive(t, v) == t
    ensures v.key !in Keys(t) ==>
              && ValuesOf(InsertRecursive(t, v)) == ValuesOf(t) + {v}
              && Size(InsertRecursive(t, v)) == Size(t) + 1
  {
    match t
    case Nil =>
    case Node(l, d, r) =>
      if d.key < v.key {
        assert v.key !in Keys(l);
        InsertContents(r, v);
      } else if d.key > v.key {
        assert v.key !in Keys(r);
        InsertContents(l, v);
      }
  }

  /** In a binary search tree every node holds a different key. */
  lemma {:induction false} KeysAreDistinct(t: Node)
    requires IsBST(t)
    ensures |Keys(t)| == Size(t)
  {
    match t
    case Nil =>
    case Node(l, d, r) =>
      KeysAreDistinct(l);
      KeysAreDistinct(r);
      assert d.key !in Keys(l) && d.key !in Keys(r);
      assert Keys(l) !! Keys(r) by {
        forall k | k in Keys(l) ensures k !in Keys(r) {
          assert k < d.key;
        }
      }
      assert |Keys(l) + {d.key}| == |Keys(l)| + 1;
  }

  // ---------------------------------------------------------------- delete

  /** The node `t` as `deleteRecursive(t, v)` leaves it. The call never returns a value, so
      whichever child it descends into is overwritten with `undefined`: the whole subtree on
      the side of `v` is dropped, and a node whose data equals `v` is left as it is. What the
      inner call does to the dropped subtree cannot be reached from `t` any more. */
  function DeleteRecursive(t: Node, v: Value): (r: Node)
    ensures r == Nil <==> t == Nil
    ensures r.Node? ==> r.data == t.data
    ensures ValuesOf(r) <= ValuesOf(t)
  {
    match t
    case Nil => Nil
    case Node(l, d, rt) =>
      if d.key < v.key then Node(l, d, Nil)
      else if d.key > v.key then Node(Nil, d, rt)
      else t
  }

  /** Deleting keeps the binary-search-tree order. */
  lemma DeleteKeepsOrder(t: Node, v: Value)
    requires IsBST(t)
    ensures IsBST(DeleteRecursive(t, v))
  {
  }

  /** On a binary search tree whose values share the tag of `v`, `v` survives the deletion
      exactly when it is the data of the node the deletion starts from, and every value on the
      other side of that node survives as well. */
  lemma DeleteRemovesAllButStart(t: Node, v: Value)
    requires t.Node? && IsBST(t) && AllTagged(t, v.tag)
    ensures v in ValuesOf(DeleteRecursive(t, v)) <==> v == t.data
    ensures v.key > t.data.key ==> ValuesOf(DeleteRecursive(t, v)) == ValuesOf(t.left) + {t.data}
    ensures v.key < t.data.key ==> ValuesOf(DeleteRecursive(t, v)) == {t.data} + ValuesOf(t.right)
    ensures v.key == t.data.key ==> DeleteRecursive(t, v) == t
  {
    TaggedMembership(t.left, v);
    TaggedMembership(t.right, v);
    assert t.data.tag == v.tag;
  }

  /** Deleting a value that is not stored still empties a subtree: from 5 with right child 8,
      deleting 9 leaves only 5. */
  lemma DeleteOfAbsentValueDropsSubtree()
    ensures var t := Node(Nil, Value(Number, 5), Node(Nil, Value(Number, 8), Nil));
            && Value(Number, 9) !in ValuesOf(t)
            && ValuesOf(DeleteRecursive(t, Value(Number, 9))) == {Value(Number, 5)}
  {
  }

  // ---------------------------------------------------------------- min and max

  /** `minRecursive`: follow `left` while it is present. On a binary search tree the node
      reached holds the least key. */
  function MinRecursive(t: Node): (r: Node)
    requires t.Node?
    ensures r.Node? && r.left == Nil && r in PreOrder(t) && r.data in ValuesOf(t)
    ensures IsBST(t) ==> forall k :: k in Keys(t) ==> r.data.key <= k
  {
    if t.left != Nil then MinRecursive(t.left) else t
  }

  /** `maxRecursive`: follow `right` while it is present. On a binary search tree the node
      reached holds the greatest key. */
  function MaxRecursive(t: Node): (r: Node)
    requires t.Node?
    ensures r.Node? && r.right == Nil && r in PreOrder(t) && r.data in ValuesOf(t)
    ensures IsBST(t) ==> forall k :: k in Keys(t) ==> k <= r.data.key
  {
    if t.right != Nil then MaxRecursive(t.right) else t
  }

  // ---------------------------------------------------------------- height

  /** `heightRecursive`: 0 for an empty link, otherwise one more than the taller child. */
  function HeightRecursive(t: Node): (h: nat)
    ensures h <= Size(t)
    ensures h == 0 <==> t == Nil
  {
    match t
    case Nil => 0
    case Node(l, _, r) =>
      var leftDepth := HeightRecursive(l);
      var rightDepth := HeightRecursive(r);
      if leftDepth > rightDepth then leftDepth + 1 else rightDepth + 1
  }

  /** 2 to the power `n`. */
  function Pow2(n: nat): (p: nat)
    ensures p >= 1
  {
    if n == 0 then 1 else 2 * Pow2(n - 1)
  }

  /** A tree of height `h` has fewer than 2^h nodes. */
  lemma {:induction false} SizeBelowPowerOfHeight(t: Node)
    ensures Size(t) < Pow2(HeightRecursive(t))
  {
    match t
    case Nil =>
    case Node(l, _, r) =>
      SizeBelowPowerOfHeight(l);
      SizeBelowPowerOfHeight(r);
      var h := HeightRecursive(t);
      PowMonotonic(HeightRecursive(l), h - 1);
      PowMonotonic(HeightRecursive(r), h - 1);
  }

  /** Powers of 2 grow with the exponent. */
  lemma {:induction false} PowMonotonic(a: nat, b: nat)
    requires a <= b
    ensures Pow2(a) <= Pow2(b)
  {
    if a < b {
      PowMonotonic(a, b - 1);
    }
  }

  // ---------------------------------------------------------------- in-order walk

  /** The values `logRecursive` prints, in the order it prints them. */
  function LogRecursive(t: Node): (s: seq<Value>)
    ensures |s| == Size(t)
  {
    match t
    case Nil => []
    case Node(l, d, r) => LogRecursive(l) + [d] + LogRecursive(r)
  }

  /** Keys strictly increase along `s`. */
  ghost predicate StrictlyAscending(s: seq<Value>)
  {
    forall i, j :: 0 <= i < j < |s| ==> s[i].key < s[j].key
  }

  /** The in-order walk prints exactly the stored values. */
  lemma {:induction false} LogListsValues(t: Node)
    ensures forall u :: u in LogRecursive(t) <==> u in ValuesOf(t)
  {
    match t
    case Nil =>
    case Node(l, d, r) =>
      LogListsValues(l);
      LogListsValues(r);
  }

  /** On a binary search tree the in-order walk prints keys in strictly ascending order. */
  lemma {:induction false} LogIsAscending(t: Node)
    requires IsBST(t)
    ensures StrictlyAscending(LogRecursive(t))
  {
    match t
    case Nil =>
    case Node(l, d, r) =>
      LogIsAscending(l);
      LogIsAscending(r);
      LogListsValues(l);
      LogListsValues(r);
      var a, b := LogRecursive(l), LogRecursive(r);
      forall u | u in a ensures u.key < d.key {
        assert u in ValuesOf(l);
      }
      forall u | u in b ensures d.key < u.key {
        assert u in ValuesOf(r);
      }
      AscendingAround(a, d, b);
  }

  /** Two ascending runs either side of a key that separates them form one ascending run. */
  lemma AscendingAround(a: seq<Value>, d: Value, b: seq<Value>)
    requires StrictlyAscending(a) && StrictlyAscending(b)
    requires forall u :: u in a ==> u.key < d.key
    requires forall u :: u in b ==> d.key < u.key
    ensures StrictlyAscending(a + [d] + b)
  {
    var s := a + [d] + b;
    forall i, j | 0 <= i < j < |s| ensures s[i].key < s[j].key {
      if j < |a| {
      } else if i < |a| {
        assert s[i] in a;
        if j > |a| {
          assert s[j] == b[j - |a| - 1] && s[j] in b;
        }
      } else if i == |a| {
        assert s[j] == b[j - |a| - 1] && s[j] in b;
      } else {
        assert s[i] == b[i - |a| - 1] && s[j] == b[j - |a| - 1];
      }
    }
  }

  // ---------------------------------------------------------------- full and leaf nodes

  /** A node with both children, as a filter over node lists. */
  ghost predicate FullNode(n: Node)
  {
    n.Node? && n.IsFull()
  }

  /** A node with no child, as a filter over node lists. */
  ghost predicate LeafNode(n: Node)
  {
    n.Node? && n.IsLeaf()
  }

  /** The full nodes of a subtree, in pre-order. */
  ghost function FullNodes(t: Node): seq<Node>
  {
    Filter(PreOrder(t), FullNode)
  }

  /** The leaves of a subtree, in pre-order. */
  ghost function LeafNodes(t: Node): seq<Node>
  {
    Filter(PreOrder(t), LeafNode)
  }

  /** Every non-empty binary tree has one leaf more than it has full nodes. */
  lemma {:induction false} LeavesOutnumberFullNodes(t: Node)
    requires t.Node?
    ensures |LeafNodes(t)| == |FullNodes(t)| + 1
  {
    FilterPreOrder(t, LeafNode);
    FilterPreOrder(t, FullNode);
    var l, r := t.left, t.right;
    if l != Nil {
      LeavesOutnumberFullNodes(l);
    }
    if r != Nil {
      LeavesOutnumberFullNodes(r);
    }
  }

  /** `getFullNodesRecursive(node, list)`: pushes the full nodes of the subtree in pre-order
      onto `list`; answers `undefined` for a null `node` and `list` otherwise. */
  method GetFullNodesRecursive(node: Node, list: NodeList) returns (r: Option<NodeList>)
    modifies list
    ensures list.items == old(list.items) + FullNodes(node)
    ensures r == if node == Nil then None else Some(list)
    decreases node
  {
    if node == Nil {
      return None;
    }
    if node.IsFull() {
      list.Push(node);
    }
    ghost var pushed := list.items;
    var _ := GetFullNodesRecursive(node.left, list);
    var _ := GetFullNodesRecursive(node.right, list);
    assert list.items == pushed + FullNodes(node.left) + FullNodes(node.right);
    FilterPreOrder(node, FullNode);
    return Some(list);
  }

  /** `getLeafNodesRecursive(node, list)`: pushes the leaves of the subtree in pre-order onto
      `list`; answers `undefined` for a null `node` and `list` otherwise. */
  method GetLeafNodesRecursive(node: Node, list: NodeList) returns (r: Option<NodeList>)
    modifies list
    ensures list.items == old(list.items) + LeafNodes(node)
    ensures r == if node == Nil then None else Some(list)
    decreases node
  {
    if node == Nil {
      return None;
    }
    if node.IsLeaf() {
      list.Push(node);
    }
    ghost var pushed := list.items;
    var _ := GetLeafNodesRecursive(node.left, list);
    var _ := GetLeafNodesRecursive(node.right, list);
    assert list.items == pushed + LeafNodes(node.left) + LeafNodes(node.right);
    FilterPreOrder(node, LeafNode);
    return Some(list);
  }

  // ---------------------------------------------------------------- an example

  /** The tree that inserting 5, 3, 8, 1, 4 into an empty tree builds. */
  lemma {:induction false} ExampleShape()
    ensures InsertRecursive(InsertRecursive(InsertRecursive(InsertRecursive(
              Node(Nil, Value(Number, 5), Nil), Value(Number, 3)), Value(Number, 8)),
              Value(Number, 1)), Value(Number, 4))
         == Node(Node(Node(Nil, Value(Number, 1), Nil), Value(Number, 3), Node(Nil, Value(Number, 4), Nil)),
                 Value(Number, 5), Node(Nil, Value(Number, 8), Nil))
  {
    var five, three, eight := Value(Number, 5), Value(Number, 3), Node(Nil, Value(Number, 8), Nil);
    var one := Node(Nil, Value(Number, 1), Nil);
    var t1 := InsertRecursive(Node(Nil, five, Nil), three);
    assert t1 == Node(Node(Nil, three, Nil), five, Nil);
    var t2 := InsertRecursive(t1, Value(Number, 8));
    assert t2 == Node(Node(Nil, three, Nil), five, eight);
    var t3 := InsertRecursive(t2, Value(Number, 1));
    assert t3 == Node(Node(one, three, Nil), five, eight);
  }

  /** The tree of `ExampleShape`: the walk prints 1, 3, 4, 5, 8; the height is 3; the leaves are
      1, 4 and 8 and the full nodes 5 and 3. */
  lemma {:induction false} ExampleMeasures()
    ensures var t := Node(Node(Node(Nil, Value(Number, 1), Nil), Value(Number, 3), Node(Nil, Value(Number, 4), Nil)),
                          Value(Number, 5), Node(Nil, Value(Number, 8), Nil));
            && LogRecursive(t) == [Value(Number, 1), Value(Number, 3), Value(Number, 4),
                                   Value(Number, 5), Value(Number, 8)]
            && HeightRecursive(t) == 3
            && |LeafNodes(t)| == 3
            && |FullNodes(t)| == 2
  {
    var one, four := Node(Nil, Value(Number, 1), Nil), Node(Nil, Value(Number, 4), Nil);
    var three := Node(one, Value(Number, 3), four);
    var eight := Node(Nil, Value(Number, 8), Nil);
    var t := Node(three, Value(Number, 5), eight);
    assert LogRecursive(three) == [Value(Number, 1), Value(Number, 3), Value(Number, 4)];
    assert HeightRecursive(three) == 2;
    LeavesOutnumberFullNodes(t);
    FilterPreOrder(t, FullNode);
    FilterPreOrder(three, FullNode);
    FilterPreOrder(one, FullNode);
    FilterPreOrder(four, FullNode);
    FilterPreOrder(eight, FullNode);
  }
}
