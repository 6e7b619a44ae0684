# JavaScriptBST in Dafny

A model of `jsbst.js`, an unbalanced binary search tree written in JavaScript. The file
defines two objects:

- `Node` holds `data` and its `left`, `right` and `parent` links. It answers `isLeaf` and
  `isFull`, lists its descendants in pre-order (`getChildren`) and counts them
  (`countChildren`).
- `Tree` owns a `root` and a type tag `treeType`. It offers:
  - `checkType`.
  - `search`, with the aliases `find`, `contains` and `has`.
  - `insert` and `delete`.
  - `min` and `max`.
  - `getFullNodes`, `getLeafNodes` and their counts.
  - `height`, `reset` and `log`.

Files:

- `values.dfy` (module `Values`): what a stored value is and the error the tree raises. A value
  is a `typeof` tag plus an integer key that orders the values of one tag. `Outcome` and
  `Result` stand for "returns or throws".
- `nodes.dfy` (module `Nodes`): the node datatype and its queries. `Nil` stands for `null`.
  The pre-order list `PreOrder` and the filter `Filter` are the reference definitions the
  enumerations are proved against. `NodeList` is the JavaScript array that the recursive
  enumerations push into.
- `walks.dfy` (module `Walks`): the recursive inner functions of the tree's methods, and what
  they guarantee on a binary search tree (`IsBST`, strict order by key).
- `tree.dfy` (module `Bst`): the class `Tree`, with fields `root` and `treeType` and the
  invariant `Valid()`. The invariant says three things:
  - the tree is empty exactly when it has no type;
  - the tree is in strict search order;
  - every stored value has the tree's type.

  Insert, delete and reset keep it.

How `delete` actually behaves: `deleteRecursive` never returns a value. Whatever child it
recurses into is therefore overwritten with `undefined`:

- when `v` is larger than the root's data, the whole right subtree is dropped;
- when it is smaller, the whole left subtree is dropped;
- when they are equal, nothing changes.

The model states this behaviour (`Walks.DeleteRecursive`, `Bst.Tree.Delete`). It is not the
textbook deletion, which unlinks the one node holding `v` and, for a node with two children,
replaces it by its in-order successor.

Two other consequences of the code that the model states:

- On an empty tree, `min` and `max` throw (they read `node.left` / `node.right` of `null`);
  they never answer `null`.
- Inserting 5, 3, 8, 1, 4 gives three leaves (1, 4, 8) and two full nodes (5, 3)
  (`Walks.ExampleMeasures`).

## Model

| member | source | states |
|---|---|---|
| `Nodes.Node.IsLeaf` | jsbst.js:17-23 | true exactly when the node's subtree is the node alone, that is when both links are null (so `countChildren` is 0) |
| `Nodes.Node.IsFull` | jsbst.js:29-35 | true exactly when both subtrees below the node are non-empty; a full node is never a leaf and its subtree holds at least three nodes |
| `Nodes.GetChildrenRecursive` | jsbst.js:43-49 | pushes the subtree's nodes in pre-order, skipping only the node `getChildren` was called on; answers `undefined` for a null node and the list otherwise |
| `Nodes.GetChildren` | jsbst.js:41-51 | the result is the pre-order list of the node's subtree without the node itself; its length is the subtree size minus 1; every entry is a strictly smaller node |
| `Nodes.CountChildren` | jsbst.js:57-59 | equals the subtree size minus 1; it is 0 exactly when the node is a leaf |
| `Nodes.InFilter` | jsbst.js:232 | a node is in a filtered list exactly when it is in the list and passes the test |
| `Nodes.FilterPreOrder` | jsbst.js:230-236 | filtering a subtree's pre-order list gives: the node if it passes, then the left subtree's filtered list, then the right's |
| `Walks.TaggedMembership` | jsbst.js:73-79 | when every stored value has the tag of `v`, `v` is stored exactly when its key is |
| `Walks.SearchRecursive` | jsbst.js:101-110 | a non-null answer holds exactly `v` and is a node of the subtree searched |
| `Walks.SearchFindsStoredValue` | jsbst.js:99-112 | on a search tree whose values share `v`'s tag, the search finds a node exactly when `v` is stored |
| `Walks.InsertRecursive` | jsbst.js:155-167 | the result is a node; its keys are the old keys plus `v`'s key; its values lie between the old values and the old values plus `v` |
| `Walks.InsertKeepsOrder` | jsbst.js:155-167 | insertion keeps strict search order |
| `Walks.InsertContents` | jsbst.js:161-166 | inserting a key that is already stored leaves the tree unchanged; inserting a new key adds exactly `v` and exactly one node |
| `Walks.KeysAreDistinct` | jsbst.js:161-166 | in a search tree the number of distinct keys equals the number of nodes |
| `Walks.DeleteRecursive` | jsbst.js:173-183 | the node stays non-null and keeps its data; no value is gained |
| `Walks.DeleteKeepsOrder` | jsbst.js:173-183 | deletion as written keeps strict search order |
| `Walks.DeleteRemovesAllButStart` | jsbst.js:171-185 | on a typed search tree, `v` survives exactly when it is the root's value; a larger `v` leaves only the root and its left subtree; a smaller `v` leaves only the root and its right subtree; an equal `v` changes nothing |
| `Walks.DeleteOfAbsentValueDropsSubtree` | jsbst.js:178-179 | deleting 9, which is not stored, from 5 with right child 8 still loses 8 |
| `Walks.MinRecursive` | jsbst.js:193-198 | the node reached has no left child, belongs to the subtree, and in a search tree holds the least key |
| `Walks.MaxRecursive` | jsbst.js:212-217 | the node reached has no right child, belongs to the subtree, and in a search tree holds the greatest key |
| `Walks.HeightRecursive` | jsbst.js:276-285 | the height is 0 exactly for an empty link and never exceeds the number of nodes |
| `Walks.SizeBelowPowerOfHeight` | jsbst.js:276-285 | a tree of height h has fewer than 2^h nodes |
| `Walks.LogRecursive` | jsbst.js:85-91 | prints one value per node |
| `Walks.LogListsValues` | jsbst.js:85-91 | prints exactly the stored values |
| `Walks.LogIsAscending` | jsbst.js:85-91 | on a search tree the printed keys strictly ascend |
| `Walks.LeavesOutnumberFullNodes` | jsbst.js:229-269 | a non-empty tree has exactly one more leaf than full nodes |
| `Walks.GetFullNodesRecursive` | jsbst.js:230-236 | appends the subtree's full nodes, in pre-order, to the list; answers `undefined` for a null node |
| `Walks.GetLeafNodesRecursive` | jsbst.js:253-259 | appends the subtree's leaves, in pre-order, to the list; answers `undefined` for a null node |
| `Walks.ExampleShape` | jsbst.js:147-169 | inserting 5, 3, 8, 1, 4 builds 5 with children 3 and 8, and gives 3 the children 1 and 4 |
| `Walks.ExampleMeasures` | jsbst.js:84-93 | that tree prints 1, 3, 4, 5, 8, has height 3, three leaves and two full nodes |
| `Bst.Tree.constructor` | jsbst.js:65-67 | a new tree has no root and no type, and satisfies the invariant |
| `Bst.Tree.CheckType` | jsbst.js:73-79 | passes exactly when the tree is non-empty and every stored value has `v`'s tag; otherwise throws "Type mismatch" (always on an empty tree) |
| `Bst.Tree.Log` | jsbst.js:84-93 | prints each stored value once, in strictly ascending key order |
| `Bst.Tree.Search` | jsbst.js:99-112 | throws exactly when `v`'s tag is not the tree's type (always on an empty tree); otherwise answers a node holding `v` when `v` is stored and null when it is not |
| `Bst.Tree.Find` | jsbst.js:118-120 | the same answer as `search` |
| `Bst.Tree.Contains` | jsbst.js:127-133 | throws as `search` does; otherwise answers whether `v` is stored |
| `Bst.Tree.Has` | jsbst.js:139-141 | the same answer as `contains` |
| `Bst.Tree.Insert` | jsbst.js:147-169 | an empty tree gets `v` as its root and its type, with no check. Otherwise a mismatched tag throws and changes nothing; a matching one adds `v` to the values. A new value adds one node; a present one changes nothing. The invariant is kept |
| `Bst.Tree.Delete` | jsbst.js:171-185 | throws on a mismatched tag (always on an empty tree) and changes nothing. Otherwise the root and its data stay; `v` is absent afterwards unless it is the root's value; no value is gained; the invariant is kept |
| `Bst.Tree.Min` | jsbst.js:192-204 | from the root (no argument) or from the given node, ends at a node with no left child; from the root it holds the least stored key |
| `Bst.Tree.Max` | jsbst.js:211-223 | from the root or the given node, ends at a node with no right child; from the root it holds the greatest stored key |
| `Bst.Tree.GetFullNodes` | jsbst.js:229-238 | `undefined` exactly on an empty tree; otherwise exactly the tree's full nodes, in pre-order |
| `Bst.Tree.CountFullNodes` | jsbst.js:244-246 | the number of full nodes, which is one less than the number of leaves |
| `Bst.Tree.GetLeafNodes` | jsbst.js:252-261 | `undefined` exactly on an empty tree; otherwise exactly the tree's leaves, in pre-order |
| `Bst.Tree.CountLeafNodes` | jsbst.js:267-269 | the number of leaves, which is one more than the number of full nodes |
| `Bst.Tree.Height` | jsbst.js:275-287 | 0 exactly for an empty tree; at most the number of nodes n; and n < 2^height |
| `Bst.Tree.Reset` | jsbst.js:292-295 | returns to the constructor's state (no root, no type) whatever the state was, so a second reset changes nothing |

## Left out

- `console.log` in `log` is I/O. The model gives the sequence of values it would print.
- The `parent` link is written only by `insert` and read nowhere, so it is not modelled.
- Nodes are values, not objects:
  - `insert` and `delete` rebuild the root value instead of overwriting child links in place.
  - A node handed out by `search`, `min`, `max` or the enumerations is a snapshot. Under
    aliasing, a caller holding such a node in JavaScript would see later changes to it. That
    includes what the inner `deleteRecursive` calls do inside a subtree that `delete` then
    drops. This is not captured.
  - `getChildren` compares nodes by identity (`!==`); the model compares them by value. The two
    agree here because a strict descendant is always a smaller tree than the node.
- JavaScript's value semantics are abstracted: a value is a `typeof` tag plus an integer key,
  and two values of one tag are `===` exactly when `<` and `>` both say no. That holds for
  booleans, strings, bigints and numbers other than NaN. It leaves out:
  - symbols: `<` and `>` throw a `TypeError` on them, so in a tree of symbols every `insert`
    after the first, every `delete`, and every `search`/`contains` for a symbol other than the
    root's throws. The tag `symbol` is not part of the model.
  - NaN, which is neither smaller nor larger than anything yet not `===` to itself;
  - objects and functions whose primitive conversions (`valueOf`/`toString`) coincide: such
    values are distinct under `===` but neither smaller nor larger under `<` and `>`. The model
    gives every distinct value of a tag its own key;
  - `undefined`, which is a single value, though the model allows several keys under its tag;
  - coercing comparisons across types, floating point, and the `==` test (jsbst.js:178) of
    `deleteRecursive` (its branch is empty, so it changes nothing).
- The `depth` parameter of `heightRecursive` is never used, so it is not modelled.
- The module wrapper and the exported object are packaging.
- Operations that throw by dereferencing `null` on an empty tree are modelled as preconditions,
  not as failures:
  - `min` and `max` with no start node (or a null one);
  - `countFullNodes` and `countLeafNodes`, which read `.length` of `undefined`.
- `Bst.Tree.Min` and `Bst.Tree.Max` accept any start node, as the source does. For a start node
  given explicitly, the least/greatest-key property is stated in `Walks.MinRecursive` and
  `Walks.MaxRecursive` only under the assumption that the node's subtree is in search order.
