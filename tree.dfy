/** The `Tree` object of jsbst.js: a root link and the type tag fixed by the first insertion. */
module Bst {
  import opened Values
  import opened Nodes
  import opened Walks

  class Tree {
    var root: Node
    /** `null` until the first insertion, then `typeof` of the first value inserted. */
    var treeType: Option<Tag>

    /** The tree is empty exactly when it has no type; it is a binary search tree; and every
        value it stores has the tree's type. */
    ghost predicate Valid()
      reads this
    {
      && (root == Nil <==> treeType == None)
      && IsBST(root)
      && (treeType.Some? ==> AllTagged(root, treeType.value))
    }

    /** The constructor: no root and no type. */
    constructor ()
      ensures Valid() && root == Nil && treeType == None
    {
      root := Nil;
      treeType := None;
    }

    /** `checkType`: passes exactly when the tree is non-empty and every value it holds has the
        type of `v`; throws "Type mismatch" otherwise, in particular on an empty tree. */
    function CheckType(v: Value): (r: Outcome)
      reads this
      requires Valid()
      ensures r == Pass <==> root != Nil && AllTagged(root, v.tag)
      ensures r != Pass ==> r == Fail(TypeMismatch)
    {
      if treeType != Some(v.tag) then Fail(TypeMismatch) else Pass
    }

    /** `log`: the values printed, in order; on a valid tree they are exactly the stored values,
        in strictly ascending order. */
    method Log() returns (printed: seq<Value>)
      requires Valid()
      ensures printed == LogRecursive(root)
      ensures StrictlyAscending(printed)
      ensures forall u :: u in printed <==> u in ValuesOf(root)
      ensures |printed| == Size(root)
    {
      printed := LogRecursive(root);
      LogIsAscending(root);
      LogListsValues(root);
    }

    /** `search`: throws on a type mismatch (always on an empty tree); otherwise answers the
        node holding `v`, or `Nil` when `v` is not stored. */
    method Search(v: Value) returns (r: Result<Node>)
      requires Valid()
      ensures r.Err? <==> treeType != Some(v.tag)
      ensures r.Err? ==> r.error == TypeMismatch
      ensures r.Ok? ==> r.value == SearchRecursive(root, v)
      ensures r.Ok? ==> (r.value != Nil <==> v in ValuesOf(root))
      ensures r.Ok? && r.value != Nil ==> r.value.data == v && r.value in PreOrder(root)
    {
      var check := CheckType(v);
      if check.Fail? {
        return Err(check.error);
      }
      SearchFindsStoredValue(root, v);
      r := Ok(SearchRecursive(root, v));
    }

    /** `find`: the same as `search`. */
    method Find(v: Value) returns (r: Result<Node>)
      requires Valid()
      ensures r.Err? <==> treeType != Some(v.tag)
      ensures r.Err? ==> r.error == TypeMismatch
      ensures r.Ok? ==> r.value == SearchRecursive(root, v)
      ensures r.Ok? ==> (r.value != Nil <==> v in ValuesOf(root))
    {
      r := Search(v);
    }

    /** `contains`: throws as `search` does; otherwise answers whether `v` is stored. */
    method Contains(v: Value) returns (r: Result<bool>)
      requires Valid()
      ensures r.Err? <==> treeType != Some(v.tag)
      ensures r.Err? ==> r.error == TypeMismatch
      ensures r.Ok? ==> (r.value <==> v in ValuesOf(root))
    {
      var found := Search(v);
      if found.Err? {
        return Err(found.error);
      }
      r := Ok(found.value != Nil);
    }

    /** `has`: the same as `contains`. */
    method Has(v: Value) returns (r: Result<bool>)
      requires Valid()
      ensures r.Err? <==> treeType != Some(v.tag)
      ensures r.Err? ==> r.error == TypeMismatch
      ensures r.Ok? ==> (r.value <==> v in ValuesOf(root))
    {
      r := Contains(v);
    }

    /** `insert`: into an empty tree, makes `v` the root and fixes the type without any check;
        otherwise throws on a type mismatch before touching anything, and else adds `v` unless
        its key is already stored. */
    method Insert(v: Value) returns (r: Outcome)
      requires Valid()
      modifies this
      ensures Valid()
      ensures old(root) == Nil ==> r == Pass && root == Node(Nil, v, Nil) && treeType == Some(v.tag)
      ensures old(root) != Nil ==> (r == Fail(TypeMismatch) <==> old(treeType) != Some(v.tag))
      ensures r.Fail? ==> root == old(root) && treeType == old(treeType)
      ensures old(root) != Nil && r == Pass ==> root == InsertRecursive(old(root), v) && treeType == old(treeType)
      ensures r == Pass ==> ValuesOf(root) == old(ValuesOf(root)) + {v}
      ensures r == Pass ==> Size(root) == old(Size(root)) + (if v in old(ValuesOf(root)) then 0 else 1)
      ensures r == Pass && v in old(ValuesOf(root)) ==> root == old(root)
    {
      if root == Nil {
        root := Node(Nil, v, Nil);
        treeType := Some(v.tag);
        return Pass;
      }
      var check := CheckType(v);
      if check.Fail? {
        return check;
      }
      TaggedMembership(root, v);
      InsertKeepsOrder(root, v);
      InsertContents(root, v);
      root := InsertRecursive(root, v);
      r := Pass;
    }

    /** `delete`, as written: throws on a type mismatch (always on an empty tree); otherwise
        keeps the root and its value, empties the root's right subtree when `v` is larger than
        the root's data and its left subtree when `v` is smaller, and changes nothing when they
        are equal. `v` is gone afterwards unless it is the root's value. */
    method Delete(v: Value) returns (r: Outcome)
      requires Valid()
      modifies this
      ensures Valid()
      ensures r == Fail(TypeMismatch) <==> old(treeType) != Some(v.tag)
      ensures r.Fail? ==> root == old(root) && treeType == old(treeType)
      ensures r == Pass ==> root == DeleteRecursive(old(root), v) && treeType == old(treeType)
      ensures r == Pass ==> root.Node? && root.data == old(root).data
      ensures r == Pass ==> (v in ValuesOf(root) <==> v == old(root).data)
      ensures r == Pass ==> ValuesOf(root) <= old(ValuesOf(root))
    {
      var check := CheckType(v);
      if check.Fail? {
        return check;
      }
      DeleteKeepsOrder(root, v);
      DeleteRemovesAllButStart(root, v);
      root := DeleteRecursive(root, v);
      r := Pass;
    }

    /** `min`: with no argument (`undefined`) from the root, else from the given node, follows
        `left` to its end. The start must be a node: `node.left` is read from it. From the root
        the node reached holds the least stored key. */
    method Min(start: Option<Node>) returns (r: Node)
      requires Valid()
      requires start.None? ==> root != Nil
      requires start.Some? ==> start.value != Nil
      ensures start.None? ==> r == MinRecursive(root)
      ensures start.Some? ==> r == MinRecursive(start.value)
      ensures r.Node? && r.left == Nil
      ensures start.None? ==> r.data in ValuesOf(root) && forall k :: k in Keys(root) ==> r.data.key <= k
    {
      if start.None? {
        r := MinRecursive(root);
      } else {
        r := MinRecursive(start.value);
      }
    }

    /** `max`: as `min`, following `right`. From the root the node reached holds the greatest
        stored key. */
    method Max(start: Option<Node>) returns (r: Node)
      requires Valid()
      requires start.None? ==> root != Nil
      requires start.Some? ==> start.value != Nil
      ensures start.None? ==> r == MaxRecursive(root)
      ensures start.Some? ==> r == MaxRecursive(start.value)
      ensures r.Node? && r.right == Nil
      ensures start.None? ==> r.data in ValuesOf(root) && forall k :: k in Keys(root) ==> k <= r.data.key
    {
      if start.None? {
        r := MaxRecursive(root);
      } else {
        r := MaxRecursive(start.value);
      }
    }

    /** `getFullNodes`: the full nodes in pre-order; `undefined` on an empty tree. */
    method GetFullNodes() returns (r: Option<seq<Node>>)
      ensures r.None? <==> root == Nil
      ensures r.Some? ==> r.value == FullNodes(root)
      ensures r.Some? ==> forall n :: n in r.value <==> n in PreOrder(root) && n.Node? && n.IsFull()
    {
      var list := new NodeList();
      var found := GetFullNodesRecursive(root, list);
      if found.None? {
        return None;
      }
      r := Some(found.value.items);
      forall n ensures n in r.value <==> n in PreOrder(root) && n.Node? && n.IsFull() {
        InFilter(PreOrder(root), FullNode, n);
        if n in PreOrder(root) {
          InPreOrder(root, n);
        }
      }
    }

    /** `countFullNodes`: the number of full nodes. On an empty tree `getFullNodes` answers
        `undefined` and reading its length throws, so the tree must be non-empty. */
    method CountFullNodes() returns (count: nat)
      requires root != Nil
      ensures count == |FullNodes(root)|
      ensures count == |LeafNodes(root)| - 1
    {
      var nodes := GetFullNodes();
      count := |nodes.value|;
      LeavesOutnumberFullNodes(root);
    }

    /** `getLeafNodes`: the leaves in pre-order; `undefined` on an empty tree. */
    method GetLeafNodes() returns (r: Option<seq<Node>>)
      ensures r.None? <==> root == Nil
      ensures r.Some? ==> r.value == LeafNodes(root)
      ensures r.Some? ==> forall n :: n in r.value <==> n in PreOrder(root) && n.Node? && n.IsLeaf()
    {
      var list := new NodeList();
      var found := GetLeafNodesRecursive(root, list);
      if found.None? {
        return None;
      }
      r := Some(found.value.items);
      forall n ensures n in r.value <==> n in PreOrder(root) && n.Node? && n.IsLeaf() {
        InFilter(PreOrder(root), LeafNode, n);
        if n in PreOrder(root) {
          InPreOrder(root, n);
        }
      }
    }

    /** `countLeafNodes`: the number of leaves, one more than the number of full nodes. On an
        empty tree reading the length of `undefined` throws, so the tree must be non-empty. */
    method CountLeafNodes() returns (count: nat)
      requires root != Nil
      ensures count == |LeafNodes(root)|
      ensures count == |FullNodes(root)| + 1
    {
      var nodes := GetLeafNodes();
      count := |nodes.value|;
      LeavesOutnumberFullNodes(root);
    }

    /** `height`: 0 for an empty tree, otherwise the number of nodes on a longest path down from
        the root; never more than the number of nodes and never less than the base-2 size. */
    method Height() returns (h: nat)
      ensures h == HeightRecursive(root)
      ensures h == 0 <==> root == Nil
      ensures h <= Size(root) < Pow2(h)
    {
      h := HeightRecursive(root);
      SizeBelowPowerOfHeight(root);
    }

    /** `reset`: back to the constructor's state, whatever the state before. */
    method Reset()
      modifies this
      ensures Valid() && root == Nil && treeType == None
    {
      root := Nil;
      treeType := None;
    }
  }
}
