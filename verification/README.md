# Tree storage engine of `hapi_server.py`, modelled in Dafny

This project models the in-memory tree store behind the HAPI server:

- `Node`: a vertex with a string id, a name, a parent link, children kept sorted by name, and a cached depth.
- `Storage`: the global id index, the root, and the cached pre-order list of ids (`_preorder`). Its operations are `add`, `delete`, `move` and `query`.

Every operation is a pure function on immutable values, and its contracts and lemmas state what the source promises.

The tree is an immutable recursive value, `Tree.Node(id, name, depth, children)`:

- `Tree.Flatten` is its pre-order walk.
- `Tree.Find` locates a subtree by id, and `Tree.Replace` swaps it for another one.
- `Links.ParentOf` recovers the parent link, and `Links.Ancestors` is the chain of parents walked by `move`.
- The id index `_nodes` is the set of ids in the walk (`Storage.Known`).
- `_children_by_id` is the lookup of a child by id (`Nodes.ChildIndex`).

A store is `Storage.Store(tree, root, preorder)`. `Storage.Valid` is the invariant that `add`, `delete` and the corrected `move` keep; `move` as written can break it (see Findings, `Findings.LeafMoveBreaksStore`):

- the root has depth 0;
- siblings are strictly ascending by name;
- every child is one deeper than its parent;
- no id occurs twice;
- `root` names the root;
- `preorder` is the walk of the tree.

`Names.Less` is the order `Node.__lt__` uses: a lexicographic order on names, proved to be a strict total order.

Each file holds one module:

- `wrappers.dfy`: `Option`.
- `seqs.dfy`: the Python list operations used: `index`, `insert`, `remove`, clipped slicing, filtering comprehensions, and `OrderedDict.fromkeys`.
- `names.dfy`: the name order.
- `tree.dfy`: the tree, its walk, lookup and replacement.
- `nodes.dfy`: the `Node` methods.
- `links.dfy`: parent links, ancestors, `preorder_predecessor`.
- `edits.dfy`: lookups after a subtree edit.
- `relink.dfy`: the tree side of `move`.
- `spans.dfy`: the re-splice of `_preorder` in `move`, including the span exchange (module `Spans`), and where the re-spliced block lands (module `Landing`).
- `storage.dfy`: `add`, `delete` and the invariant.
- `moving.dfy`: `move`.
- `query.dfy`: `query`.
- `findings.dfy`: two concrete stores that exhibit the defects listed under Findings.

Python's truth tests are modelled on their values:

- an absent or empty list is the empty sequence;
- an absent depth bound is 0;
- an absent parent is the empty id `""`.

## Model

| member | source | states |
|---|---|---|
| Names.LessTotal | hapi_server.py:37-38 | Two different names are always ordered one way or the other, so sorting by `<` on names leaves no ties between distinct names. |
| Names.LessTransitive | hapi_server.py:37-38 | The name order is transitive, as sorting requires. |
| Nodes.LeafBlock | hapi_server.py:46-47 | `is_leaf` holds exactly when the node's pre-order block is the node alone. |
| Nodes.LastPreorderChild | hapi_server.py:49-55 | Following last children ends at a leaf, and that leaf is the last id of the node's pre-order block. |
| Nodes.SetDepth | hapi_server.py:76-81 | The node gets the new depth and every descendant gets one more than its parent; ids, names, child names and the pre-order walk are unchanged. |
| Nodes.SetDepthSorted | hapi_server.py:76-81 | Re-depthing leaves the name order of every sibling list as it was. |
| Nodes.SetDepthFind | hapi_server.py:76-81 | Re-depthing changes nothing but depths: every node of the subtree keeps its name and its children's ids. When the depths already follow the tree, every node moves by as much as the subtree's root. |
| Nodes.InsertByName | hapi_server.py:88-89 | Appending and sorting a strictly ascending list that lacks the new name puts the node at its name position and keeps the list strictly ascending. |
| Nodes.InsertByNamePermutes | hapi_server.py:88-89 | The sorted list holds exactly the old children plus the new node. |
| Nodes.AddChild | hapi_server.py:83-94 | Refused exactly when there is no node or a child already has its name. Otherwise the parent keeps its id, name and depth, and gains the node, re-depthed to the parent's depth + 1, at its name position. |
| Nodes.AddChildWellFormed | hapi_server.py:83-94 | After `add_child` the node is a child one deeper than the parent, with consistent depths below it, and a well-formed parent stays well-formed. |
| Nodes.RemoveChild | hapi_server.py:96-110 | Refused exactly for an id that is not a child, or for a child with children when `force` is not set. On success that child alone is dropped and the others keep their order. |
| Nodes.AddChildKeepsIds | hapi_server.py:83-94 | A successful `add_child` keeps every child the parent already had. |
| Nodes.RemoveChildWellFormed | hapi_server.py:96-110 | Removing a child keeps a well-formed parent well-formed. |
| Nodes.RemoveChildKeepsIds | hapi_server.py:96-110 | A successful `remove_child` keeps every child other than the removed one. |
| Storage.GraftLeafUndone | hapi_server.py:83-110 | `remove_child` of a leaf just added by `add_child` gives back the parent as it was, and the tree as it was. |
| Nodes.IndexOfNameSorted | hapi_server.py:66 | In a sibling list in name order, `children.index`, which compares names, finds a node at its own position. |
| Nodes.PredecessorPrecedes | hapi_server.py:57-74 | In the walk of a parent, the predecessor of its `i`-th child is the id just before the child's block: the parent for the first child, otherwise the last id of the preceding sibling's block. |
| Links.PredecessorIsPrevious | hapi_server.py:57-74 | `preorder_predecessor` is None exactly for the root; for any other node it is the id just before it in the pre-order walk. |
| Links.ParentOf | hapi_server.py:92 | A node has a parent exactly when it is not the root, and the parent has it among its children. |
| Links.ParentOfChild | hapi_server.py:92 | Parent links agree with the children lists: every child of a node of the tree has that node as its parent. |
| Links.ParentOfFound | hapi_server.py:92-93 | The parent is a node of the tree, and its child at the position `_children_by_id` gives is the node itself. |
| Links.AncestorsMeaning | hapi_server.py:193-201 | The walk up the parents from `to` meets `nid` exactly when `to` lies strictly inside the subtree of `nid`. |
| Seqs.IndexOf | hapi_server.py:155 | `list.index` gives the position of the first occurrence; the result is in range exactly when the element is present. |
| Seqs.IndexOfFirst | hapi_server.py:155 | Nothing before the position `list.index` returns equals the element. |
| Seqs.Insert | hapi_server.py:155 | `list.insert` puts the element at the clipped position, with everything before it and after it kept in order. |
| Seqs.RemoveFirst | hapi_server.py:171 | `list.remove` drops one element when it is present, and leaves the list as it is when the element is absent. |
| Seqs.RemoveFirstUndone | hapi_server.py:171 | `list.remove` drops exactly the first occurrence: putting the element back at the position `list.index` gives restores the list. |
| Seqs.Slice | hapi_server.py:305 | A slice within bounds is the stretch between them; a stop past the end is clipped to the length; a start at or past the stop, or at or past the end, gives the empty list. |
| Seqs.Filter | hapi_server.py:287 | A filtering comprehension keeps exactly the elements that pass the test. |
| Seqs.FilterKeepsOrder | hapi_server.py:283-287 | Filtering a list without repetitions gives a list without repetitions, in the original order. |
| Seqs.Dedup | hapi_server.py:290 | `OrderedDict.fromkeys` keeps each element once, loses none, and keeps the order of first occurrences. |
| Seqs.InOrderTrans | hapi_server.py:289-290 | A list that follows the order of a second list, which follows the order of a third, follows the order of the third. |
| Seqs.ConcatHas | hapi_server.py:308 | An element of one of the lists joined by `extend` is in the joined list. |
| Seqs.ConcatRepeat | hapi_server.py:308 | An element of two different lists joined by `extend` occurs at least twice in the joined list. |
| Storage.Add | hapi_server.py:128-156 | `add` succeeds exactly when the id is new and either no parent is given and the store is empty, or the parent is known and has no child with the new name. A failure changes nothing, and `_root` changes only for a root add. |
| Storage.AddKeepsValid | hapi_server.py:128-156 | `add` keeps the store valid. On success the ids gain exactly the new id, `_preorder` grows by one, and removing the new id from it gives back the old list. |
| Storage.AddPlacesAfterPredecessor | hapi_server.py:147-155 | A new child is a leaf child of its parent, one deeper. In `_preorder` it sits directly after its pre-order predecessor in the new tree. |
| Storage.Delete | hapi_server.py:158-178 | A failed `delete` changes nothing, and `_root` is never changed. |
| Storage.DeleteKeepsValid | hapi_server.py:158-178 | `delete` keeps the store valid and succeeds exactly on a known leaf. On success the ids and `_preorder` lose exactly that id, and putting it back at its old position in `_preorder` gives the old list. |
| Storage.DeleteLeaf | hapi_server.py:164-171 | Deleting a non-root node succeeds exactly when it is a leaf, and then detaches it from its parent. |
| Storage.AddThenDelete | hapi_server.py:128-178 | Deleting a child right after adding it gives back the store as it was. |
| Storage.AddRootThenDelete | hapi_server.py:173-176 | Deleting the sole root empties the tree and `_preorder`, but `_root` still names the deleted node. |
| Relink.PruneShape | hapi_server.py:208 | Detaching the node cuts exactly its block out of the walk. |
| Relink.PruneWellFormed | hapi_server.py:208 | Detaching keeps the tree well-formed, free of repeated ids, and rooted where it was. |
| Relink.PruneKeepsDestination | hapi_server.py:205-208 | After the detach, `to` is still in the tree and its children have the same names, so the name check `add_child` makes before the detach gives the same answer after it. |
| Relink.RelinkShape | hapi_server.py:205-210 | Before the move the walk is `a + block + c`, after it `a2 + block + c2`, with `a + c == a2 + c2`. The new predecessor is the last id of `a2`. |
| Relink.RelinkWellFormed | hapi_server.py:205-208 | The re-linked tree is well-formed, free of repeated ids, rooted where it was, and has the moved node among the children of `to`. |
| Relink.PruneKeeps | hapi_server.py:208 | Detaching the node leaves every node outside its subtree with its name, depth and child ids, except that the old parent loses the node itself. |
| Relink.GraftKeeps | hapi_server.py:205 | Attaching the node below `to` leaves every node already in the tree with its name, depth and all its child ids. |
| Relink.BlockMoves | hapi_server.py:205 | Inside the moved subtree, every node keeps its name and child ids, and its depth shifts by the one amount that puts the moved node right below `to`. |
| Relink.RelinkKeeps | hapi_server.py:205-208 | For one node across the whole re-link: the name and the child ids other than the moved node are kept; the depth is kept outside the moved subtree and shifted inside it. |
| Relink.RelinkKeepsParent | hapi_server.py:205-208 | Every node except the root and the moved node has the same parent after the re-link as before. |
| Relink.RelinkFrame | hapi_server.py:205-208 | What a move leaves alone: all names; the depths outside the moved subtree; the parents of all nodes but the moved one. Inside the subtree, every depth shifts by the same amount. |
| Spans.SwapSpans | hapi_server.py:229-237 | The in-place exchange of `s[a:b]` and `s[b:c]` gives `s[..a] + s[b:c] + s[a:b] + s[c..]`. |
| Spans.ShortFirstSwap | hapi_server.py:230-233 | The `span1 < span2` branch makes that exchange. |
| Spans.LongFirstSwap | hapi_server.py:234-237 | The other branch makes the same exchange. |
| Spans.SwapSpansPermutes | hapi_server.py:229-237 | The exchange keeps the length and every element's number of occurrences. |
| Landing.InsertOneLate | hapi_server.py:210-215 | Inserting one slot past the split point is right only when nothing follows the split. |
| Landing.LeafLands | hapi_server.py:210-215 | The corrected leaf re-splice puts the leaf right after its new predecessor. The one as written does so exactly unless the leaf moves forward and something follows its new place. |
| Landing.BlockLands | hapi_server.py:216-237 | Exchanging spans puts the block right after the new prefix. The version as written raises exactly when the new position is the block's old position. |
| Landing.BlockResplice | hapi_server.py:216-237 | Both block re-splices, stated with the block and the new prefix: the corrected one always lands the block after the prefix. The one as written raises exactly when the prefix is unchanged. |
| Moving.Move | hapi_server.py:180-239 | `move` returns false with the store unchanged exactly when one of its checks fails. When it raises, `_preorder` and `_root` are as before. |
| Moving.AllowedMeaning | hapi_server.py:187-206 | The checks of `move` pass exactly when both ids are known, the node is not the root, `to` is not inside the node's subtree, and `to` has no child with the node's name. |
| Moving.MovedBelow | hapi_server.py:205-208 | After the re-link, the node, re-depthed, hangs below `to`, and its parent is the new `to`. |
| Moving.SpliceOutcome | hapi_server.py:209-237 | The corrected re-splice of `_preorder` yields the walk of the re-linked tree. |
| Moving.SpliceParts | hapi_server.py:205-237 | The walk of an allowed move is cut as `a + block + c` before and `a2 + block + c2` after. The block starts with the node and ends with its `last_preorder_child`, and the node is a leaf exactly when the block is the node alone. |
| Moving.SpliceLeafAsWritten | hapi_server.py:210-215 | The leaf re-splice as written is right exactly unless the new predecessor comes after the leaf and is not the last id. |
| Moving.SpliceBlockAsWritten | hapi_server.py:216-229 | The block re-splice as written raises exactly when the new predecessor is the id just before the block; the walk is then already right. Otherwise it is right. |
| Moving.MoveFixed | hapi_server.py:180-239 | The corrected `move` succeeds exactly when the checks pass. A failure changes nothing, and `_root` is never changed. |
| Moving.MoveFixedKeepsValid | hapi_server.py:180-239 | The corrected `move` keeps the store valid and its set of ids. On success the node's parent is `to`, its depth is one more than `to`'s, its subtree walk is unchanged, and `_preorder` has it right after its pre-order predecessor. The rest of the tree is left alone (`Moving.LeftAlone`): every node keeps its name; every node but the moved one keeps its parent; nodes outside the moved subtree keep their depth; inside it, all depths shift by one common amount. |
| Moving.MoveLeafAsWritten | hapi_server.py:210-215 | A leaf move as written always reports success. It leaves the store the corrected move leaves, except exactly when the new predecessor comes after the leaf in `_preorder` and is not its last id. |
| Moving.MoveBlockAsWritten | hapi_server.py:216-229 | A move of a node with children, as written, raises exactly when its new predecessor is the id just before it, leaving the corrected store. Otherwise it returns what the corrected move returns. The recursion limit of `set_depth` is not modelled (see Left out). |
| Moving.RaisedAfterRelink | hapi_server.py:205-229 | When `move` raises, the tree has already been changed. |
| Findings.LeafLandsLate | hapi_server.py:210-215 | In the store with root `r` and leaves `a, b, c`, moving `a` below `b` reports success with `_preorder` `r, b, c, a`, while the walk of the new tree is `r, b, a, c`. |
| Findings.LeafMoveBreaksStore | hapi_server.py:210-215 | After that move, `_preorder` has `c` third where the walk of the new tree has `a`, so the store is neither valid nor one a query reads correctly. |
| Findings.BlockMoveRaises | hapi_server.py:216-229 | In the store `r[a[a1], c[c1]]`, moving `c` below `a` raises after the tree has become `r[a[a1, c[c1]]]`. |
| Query.Query | hapi_server.py:268-292 | The query of an empty store is empty, and so is a query whose two non-zero depth bounds are inverted. A query by roots that are all unknown is empty as well. |
| Query.KnownRoots | hapi_server.py:289-290 | The roots kept are exactly the known ids among those given, each once, in the caller's order; when none is known, none is kept. |
| Query.Window | hapi_server.py:300 | The depth filter keeps exactly the nodes whose depth lies in the window. Applied to a list without repetitions, it keeps the list's order. |
| Query.SubtreeSlice | hapi_server.py:303-305 | The stretch of `_preorder` from a node to its `last_preorder_child` is exactly the walk of the node's subtree. |
| Query.SubtreeWalk | hapi_server.py:298-306 | Both branches of the loop body give the node's subtree walk, filtered by the window shifted by the node's depth. |
| Query.SubtreeMembers | hapi_server.py:294-306 | A node is in one root's result exactly when it lies in that root's subtree at a relative depth within the bounds. The result has no repetitions and follows `_preorder`. |
| Query.SubtreesMembers | hapi_server.py:294-308 | A node is in the merged result exactly when some listed root has it in its subtree at a relative depth within the bounds. |
| Query.DepthWithin | hapi_server.py:277 | Every node of a tree lies below the root's depth and above the root's depth plus the number of nodes, so the default bound "can't go deeper than the tree size". |
| Query.SubtreeWhole | hapi_server.py:276-277 | With minimum 0 and the default maximum, a subtree query returns the subtree's whole walk. |
| Query.QueryByIds | hapi_server.py:282-285 | A query by ids returns exactly the known nodes among the ids, narrowed to the given names if any, each once and in pre-order. |
| Query.QueryByNames | hapi_server.py:286-287 | A query by names alone returns exactly the nodes whose name is listed, each once and in pre-order. |
| Query.SubtreesWalks | hapi_server.py:294-308 | The loop over the roots joins, in the roots' order, each root's subtree walk cut to the relative depth window. |
| Query.SubtreeIsRootWalk | hapi_server.py:298-306 | One pass of the loop body for a known root yields that root's subtree walk cut to the relative depth window. |
| Query.RootWalksAt | hapi_server.py:294-306 | The `k`-th piece joined by the loop is the cut subtree walk of the `k`-th root. |
| Query.QueryByRoots | hapi_server.py:289-310 | A query by roots is the known roots, each once in the caller's order, each contributing its subtree walk cut to the relative depth window, joined one after the other. So a node is in it exactly when it lies in the subtree of a known listed root at a relative depth within the bounds; the maximum defaults to the number of nodes. |
| Query.NestedRootRepeats | hapi_server.py:294-308 | Roots are not merged: a listed root inside the subtree of another listed root, within the window of both, occurs at least twice in the result. |
| Query.QueryWholeTree | hapi_server.py:291-300 | Without ids, names or roots, the result is exactly the nodes whose depth is within the bounds, each once and in pre-order. Without bounds it is all of `_preorder`. |

## Left out

- The request handlers `add_node`, `delete_node`, `move_node` and `query` (hapi_server.py:313-339) and `main` (hapi_server.py:342-368). They are JSON parsing, field checks, dynamic dispatch and stdin/stdout I/O.
- `Node.__str__` (hapi_server.py:40-44): formatting only.
- Thread safety: the store is documented as not thread safe, and the model is sequential.
- Mutable parent links and the `_children_by_id` dict are not stored. Parents are derived from the tree (`Links.ParentOf`), and the dict is a lookup over the children (`Nodes.ChildIndex`). Both agree with the source under the invariant (`Links.ParentOfChild`, `Links.ParentOfFound`).
- `add` takes the id, name and parent id that the handler passes, instead of a `Node` object. The handler always builds a fresh leaf, and `not node` is false for every `Node`, because the class defines neither `__len__` nor `__nonzero__`.
- Moving.Move: the model detaches the node before attaching it below `to`, while the source calls `add_child` first. `Relink.PruneKeepsDestination` shows that the name check gives the same answer in either order, and the resulting tree is the same.
- Moving.Move, Moving.MoveFixed: these require `Storage.Valid`, the invariant `add`, `delete` and the corrected `move` keep. The `move` as written can leave a store that breaks it (`Findings.LeafMoveBreaksStore`); a `move` on such a store is not modelled.
- Query.Query: this requires `Query.Cached`, the part of `Storage.Valid` that the query relies on. It returns ids rather than node objects. A query on a store whose `_preorder` no longer matches the tree, as the `move` as written can leave it, is not modelled: there the slice from a root to its `last_preorder_child` can hold ids from outside its subtree (after the leaf move in Findings, the query by root `b` slices `b, c, a` and reports `c`).
- Query.Query: `names` is not de-duplicated, because de-duplication does not change membership in it.
- The exception raised by `move` is modelled as an outcome, `Moving.Raised`, that carries the store as left at the point of the raise.
- Moving.Move, Moving.MoveBlockAsWritten: the recursion limit of `set_depth` is not modelled, nor the partial change it leaves.
  - `set_depth` (hapi_server.py:76-81) recurses once per level of the moved subtree, and Python 2 stops at 1000 frames by default.
  - A move of a subtree about 995 or more levels deep therefore raises `RuntimeError` inside `add_child` at hapi_server.py:93. By then lines 89-92 have already put the node among the children of `to` and set its parent.
  - `old_parent.remove_child` (line 208) never runs, so the node is listed under both parents, and `_preorder` is unchanged.
  - `Nodes.SetDepth` has no depth bound, so the model reports success for such a move.
  - `main` calls the handler outside its `try` (hapi_server.py:364), so any raise ends the server. The store carried by `Moving.Raised` is never seen by a later request.
- Sorting by `__lt__` is modelled as insertion at the name position. The list is already strictly ascending, and the new name is absent.
- Names are compared character by character, as `json.load` gives them as unicode strings. Dafny's `char` is a Unicode scalar value, while a narrow Python 2 build compares UTF-16 code units, so names with characters outside the Basic Multilingual Plane may order differently there.

## Findings

| source | as written | input that shows it | evidently intended | confidence | as-written member | corrected member |
|---|---|---|---|---|---|---|
| hapi_server.py:210-215 | For a leaf, the new position is computed in `_preorder` before the leaf is removed, and then used to insert it after the removal. | Root `r` with leaves `a`, `b`, `c`; `move("a", "b")` leaves `_preorder` as `r, b, c, a`, while the walk of the new tree is `r, b, a, c`. | The leaf goes right after its new pre-order predecessor, in the list it was removed from. | not executed | Moving.MoveLeafAsWritten, Findings.LeafLandsLate | Moving.MoveFixed, Moving.MoveFixedKeepsValid |
| hapi_server.py:224-229 | When the new position equals the block's start, neither branch binds `a, b, c`, and line 229 raises after the tree has been re-linked at lines 205-208. | Store `r[a[a1], c[c1]]`; `move("c", "a")` raises, and the tree is left as `r[a[a1, c[c1]]]`. | The block, already in place, stays where it is and the move reports success. | not executed | Moving.MoveBlockAsWritten, Findings.BlockMoveRaises | Moving.MoveFixed, Moving.MoveFixedKeepsValid |

Two more behaviours follow the code and are modelled as written, not as findings:

- Deleting the sole root leaves `_root` naming the deleted node (`Storage.AddRootThenDelete`).
- A query whose roots are all unknown returns an empty list rather than querying the whole tree (`Query.Query`).
