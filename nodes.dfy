/** The tree's vertices (the `Node` object of jsbst.js) and the queries a node answers about
    the subtree below it. */
module Nodes {
  import opened Values

  /** A link to a node. `Nil` stands for `null` (and for `undefined`, which every test in the
      tree treats alike); `Node` is a node with its two child links and its data. */
  datatype Node = Nil | Node(left: Node, data: Value, right: Node) {

    /** `isLeaf`: the node has no child, which is to say its subtree is the node alone. */
    predicate IsLeaf(): (leaf: bool)
      requires Node?
      ensures leaf <==> Size(this) == 1
    {
      left == Nil && right == Nil
    }

    /** `isFull`: the node has both children, so neither subtree below it is empty and the
        node's own subtree holds at least three nodes. */
    predicate IsFull(): (full: bool)
      requires Node?
      ensures full <==> Size(left) > 0 && Size(right) > 0
      ensures full ==> Size(this) >= 3 && !IsLeaf()
    {
      left != Nil && right != Nil
    }
  }

  /** The number of nodes in a subtree. */
  ghost function Size(t: Node): nat
  {
    match t
    case Nil => 0
    case Node(l, _, r) => 1 + Size(l) + Size(r)
  }

  /** The keys stored in a subtree. */
  ghost function Keys(t: Node): set<int>
  {
    match t
    case Nil => {}
    case Node(l, d, r) => Keys(l) + {d.key} + Keys(r)
  }

  /** The values stored in a subtree. */
  ghost function ValuesOf(t: Node): (vs: set<Value>)
    ensures forall u :: u in vs ==> u.key in Keys(t)
  {
    match t
    case Nil => {}
    case Node(l, d, r) => ValuesOf(l) + {d} + ValuesOf(r)
  }

  /** Every value of the subtree has type tag `tag`. */
  ghost predicate AllTagged(t: Node, tag: Tag)
  {
    forall u :: u in ValuesOf(t) ==> u.tag == tag
  }

  /** Every node of a subtree, in pre-order: the node, then its left subtree, then its right. */
  ghost function PreOrder(t: Node): (s: seq<Node>)
    ensures |s| == Size(t)
  {
    match t
    case Nil => []
    case Node(l, _, r) => [t] + PreOrder(l) + PreOrder(r)
  }

  /** Every entry of a pre-order list is a node of the subtree: no larger than it, and holding
      one of its values. */
  lemma {:induction false} InPreOrder(t: Node, n: Node)
    requires n in PreOrder(t)
    ensures n.Node? && Size(n) <= Size(t) && n.data in ValuesOf(t)
  {
    match t
    case Node(l, _, r) =>
      if n != t {
        assert n in PreOrder(l) + PreOrder(r);
        if n in PreOrder(l) {
          InPreOrder(l, n);
        } else {
          InPreOrder(r, n);
        }
      }
  }

  /** The elements of `s` that satisfy `p`, in their order in `s`. */
  ghost function Filter(s: seq<Node>, p: Node -> bool): (r: seq<Node>)
    ensures |r| <= |s|
  {
    if s == [] then [] else (if p(s[0]) then [s[0]] else []) + Filter(s[1..], p)
  }

  /** An entry is in the filtered list exactly when it is in the list and satisfies `p`. */
  lemma {:induction false} InFilter(s: seq<Node>, p: Node -> bool, n: Node)
    ensures n in Filter(s, p) <==> n in s && p(n)
  {
    if s != [] {
      InFilter(s[1..], p, n);
      assert s == [s[0]] + s[1..];
    }
  }

  /** Filtering distributes over concatenation. */
  lemma {:induction false} FilterAppend(a: seq<Node>, b: seq<Node>, p: Node -> bool)
    ensures Filter(a + b, p) == Filter(a, p) + Filter(b, p)
  {
    if a == [] {
      assert a + b == b;
    } else {
      var head: seq<Node> := if p(a[0]) then [a[0]] else [];
      assert (a + b)[0] == a[0] && (a + b)[1..] == a[1..] + b;
      FilterAppend(a[1..], b, p);
      calc {
        Filter(a + b, p);
        head + Filter(a[1..] + b, p);
        head + (Filter(a[1..], p) + Filter(b, p));
        (head + Filter(a[1..], p)) + Filter(b, p);
        Filter(a, p) + Filter(b, p);
      }
    }
  }

  /** Filtering a pre-order list splits it at the node, then the left, then the right subtree. */
  lemma {:induction false} FilterPreOrder(t: Node, p: Node -> bool)
    requires t.Node?
    ensures Filter(PreOrder(t), p)
         == (if p(t) then [t] else []) + Filter(PreOrder(t.left), p) + Filter(PreOrder(t.right), p)
  {
    var l, r := PreOrder(t.left), PreOrder(t.right);
    assert PreOrder(t) == [t] + (l + r);
    FilterAppend([t], l + r, p);
    FilterAppend(l, r, p);
    assert [t][1..] == [];
  }

  /** The JavaScript array that the enumerations push nodes into. */
  class NodeList {
    var items: seq<Node>

    constructor ()
      ensures items == []
    {
      items := [];
    }

    /** `Array.prototype.push`. */
    method Push(n: Node)
      modifies this
      ensures items == old(items) + [n]
    {
      items := items + [n];
    }
  }

  /** `getChildrenRecursive(node, list)` inside `getChildren` of the node `self`: pushes every
      node of the subtree of `node` other than `self`, in pre-order, onto `list`, and answers
      `undefined` for a null `node` and `list` otherwise. Every call but the first is on a
      strict descendant of `self`, which can never equal `self`. */
  method GetChildrenRecursive(node: Node, self: Node, list: NodeList) returns (r: Option<NodeList>)
    requires self.Node?
    requires node == self || Size(node) < Size(self)
    modifies list
    ensures node == self ==> list.items == old(list.items) + PreOrder(node)[1..]
    ensures node != self ==> list.items == old(list.items) + PreOrder(node)
    ensures r == if node == Nil then None else Some(list)
    decreases node
  {
    if node == Nil {
      return None;
    }
    if node != self {
      list.Push(node);
    }
    ghost var pushed := list.items;
    assert Size(node.left) < Size(self) && Size(node.right) < Size(self);
    var _ := GetChildrenRecursive(node.left, self, list);
    assert list.items == pushed + PreOrder(node.left);
    var _ := GetChildrenRecursive(node.right, self, list);
    assert list.items == pushed + PreOrder(node.left) + PreOrder(node.right);
    assert PreOrder(node) == [node] + PreOrder(node.left) + PreOrder(node.right);
    return Some(list);
  }

  /** `getChildren`: every node strictly below `self`, in pre-order. */
  method GetChildren(self: Node) returns (children: seq<Node>)
    requires self.Node?
    ensures children == PreOrder(self)[1..]
    ensures |children| == Size(self) - 1
    ensures forall n :: n in children ==> n.Node? && Size(n) < Size(self)
  {
    var list := new NodeList();
    var r := GetChildrenRecursive(self, self, list);
    children := r.value.items;
    assert children == PreOrder(self.left) + PreOrder(self.right);
    forall n | n in children
      ensures n.Node? && Size(n) < Size(self)
    {
      if n in PreOrder(self.left) {
        InPreOrder(self.left, n);
      } else {
        InPreOrder(self.right, n);
      }
    }
  }

  /** `countChildren`: the size of the node's subtree, the node itself excluded. */
  method CountChildren(self: Node) returns (count: nat)
    requires self.Node?
    ensures count == Size(self) - 1
    ensures count == 0 <==> self.IsLeaf()
  {
    var children := GetChildren(self);
    count := |children|;
  }
}
