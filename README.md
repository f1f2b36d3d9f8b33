# Linked list and binary search tree, modelled in Dafny

This project models two data structures from a Rust algorithms collection.

**The doubly-linked list** (`src/data_structures/linked_list.rs`). A `LinkedList<T>` holds `head`, `tail` and a `u32` `length`. Its heap-allocated `Node`s carry `val`, `next` and `prev`.
- The model keeps the source's form. `Node` and `LinkedList` are Dafny classes whose link fields the methods overwrite in place.
- The abstract state is three ghost fields:
  - `nodes`: the nodes in chain order;
  - `Contents`: their values;
  - `Repr`: the list object plus the nodes it owns.
- Freeing a node is modelled as dropping it from `nodes` and `Repr`.
- `Linked()` is the chain invariant:
  - each node is owned;
  - `next` and `prev` of the node at position `i` point at positions `i + 1` and `i - 1`, or null past either end;
  - the values are `Contents`, `length` counts the nodes, and `head` is the first node.
- `Valid()` adds that `tail` is the last node.
- Distinctness of the nodes is not assumed; it is derived from the `prev` links (`NoRepeat`).
- Every insertion and deletion is proved to:
  - rewrite `Contents` exactly as its Rust counterpart does;
  - keep `Valid()` (`delete_ith` keeps only `Linked()`; see Findings).
- `delete_head` and `Drop` never read `tail`, so they ask only for `Linked()`. A list left by the as-written `delete_ith` can therefore still be dropped.

**The binary search tree** (`src/data_structures/binary_search_tree.rs`). A tree is a uniquely owned recursive node: an optional key and optional boxed left and right subtrees. The empty tree is a root without a key.
- The `Tree` datatype mirrors that struct.
- `search`, `minimum`, `maximum`, `floor` and `ceil` are recursive functions.
- `insert` is a function returning the new tree, since unique ownership makes the in-place update equivalent to rebuilding.
- The ghost multiset `Elems` and the ghost sequence `InOrder` give the abstract contents.
- `IsSearchTree` is the shape invariant (`WellFormed`) plus the ordering (`Ordered`):
  - smaller keys sit to the left of a node;
  - keys that are equal or larger sit to the right.
- The in-order iterator is a class over a stack of subtrees, as in the source. `Pending(stack)` gives the keys it has still to yield.
- Keys are `int`.

The unit tests of both files are replayed as scenario methods (`LinkedListScenarios`, `BinarySearchTreeScenarios`). Each promises the values the test asserts.

Files: `wrappers.dfy` (`Option`), `linked_list.dfy`, `linked_list_scenarios.dfy`, `binary_search_tree.dfy`, `binary_search_tree_scenarios.dfy`.

## Model

| member | source | states |
|---|---|---|
| LinkedList.Node.constructor | src/data_structures/linked_list.rs:23-32 | `Node::new(t)`: the node holds `t` and has no neighbours |
| LinkedList.LinkedList.constructor | src/data_structures/linked_list.rs:42-51 | `new`: the list is valid and empty; length 0, no head, no tail |
| LinkedList.LinkedList.Anchors | src/data_structures/linked_list.rs:35-40 | on a valid list: `length == 0` ⇔ no head ⇔ no tail; one node ⇒ head is tail; head has no `prev`, tail no `next`; walking `length - 1` steps from head reaches tail, and `length` steps reach the end |
| LinkedList.LinkedList.NoRepeat | src/data_structures/linked_list.rs:16-20 | in a linked chain no node occurs at two positions, as the `prev` links show |
| LinkedList.LinkedList.InsertAtHead | src/data_structures/linked_list.rs:54-76 | contents become `[v] + old`; length grows by one; an empty list gets head == tail; the list stays valid; the footprint grows by exactly the new head, a freshly allocated node |
| LinkedList.LinkedList.InsertAtTail | src/data_structures/linked_list.rs:79-96 | contents become `old + [v]`; length grows by one; an empty list gets head == tail; the list stays valid; the footprint grows by exactly the new tail, a freshly allocated node |
| LinkedList.LinkedList.InsertAtIth | src/data_structures/linked_list.rs:99-139 | for `index <= length` (the source panics beyond): contents become `old[..index] + [v] + old[index..]`; length grows by one; the list stays valid; the footprint grows by exactly the node now at `index`, a freshly allocated one; the no-op branch for a missing predecessor is proved unreachable |
| LinkedList.LinkedList.WalkTo | src/data_structures/linked_list.rs:116-123 | following `next` from head `index` times, for `index < length`, reaches the node at position `index`, so the panic on a missing successor never fires |
| LinkedList.LinkedList.DeleteHead | src/data_structures/linked_list.rs:142-157 | needs only a linked chain, since it never reads `tail`; empty list: returns None and changes nothing; otherwise returns the first value, contents become `old[1..]`, length drops by one, and the old head leaves the footprint; the chain stays linked, a valid list stays valid, and `tail` is cleared when the last node goes |
| LinkedList.LinkedList.DeleteTail | src/data_structures/linked_list.rs:160-171 | empty list: returns None and changes nothing; otherwise returns the last value, contents become `old[..length-1]`, length drops by one, the old tail leaves the footprint, and the list stays valid (head cleared when it empties) |
| LinkedList.LinkedList.DeleteIth | src/data_structures/linked_list.rs:174-210 | as written, for `index <= length`: returns the value at `index` (at `length - 1` for `index == length`) and removes it from the contents; the chain stays linked; the removed node leaves `nodes` and the footprint; `Valid()` holds afterwards exactly when not `0 < index == length - 1`; in that case `tail` still names the removed node |
| LinkedList.LinkedList.DeleteIthCorrected | src/data_structures/linked_list.rs:174-210 | the same result, contents and release of the removed node as `delete_ith`, with the list valid in every case |
| LinkedList.LinkedList.GetIthNode | src/data_structures/linked_list.rs:216-226 | walking `index` steps from the `k`-th node gives the node at position `k + index`, or null for a negative index or one past the end |
| LinkedList.LinkedList.Get | src/data_structures/linked_list.rs:212-214 | `Some(Contents[i])` for `0 <= i < length`, None for every other `i`, negative included; reads only |
| LinkedList.LinkedList.FmtNode | src/data_structures/linked_list.rs:248-258 | a node displays as the values from it to the end of the chain, joined by ", " |
| LinkedList.LinkedList.Fmt | src/data_structures/linked_list.rs:236-246 | the list displays as its values joined by ", ", the empty string when empty |
| LinkedList.LinkedList.Drop | src/data_structures/linked_list.rs:229-234 | from any linked chain whose `tail` is null when it is empty (so also after the as-written `delete_ith`), deleting the head until None empties the list after exactly `length` calls, leaves it valid, and releases every node |
| LinkedList.Inserted | src/data_structures/linked_list.rs:99-139 | `s` with `x` at position `i`: one longer, the same values before `i`, `x` at `i`, and the old values shifted up after it |
| LinkedList.Removed | src/data_structures/linked_list.rs:174-210 | `s` without position `i`: one shorter, the same values before `i`, and the later values shifted down |
| LinkedList.Shown | src/data_structures/linked_list.rs:248-258 | rendering each value keeps the length and order |
| LinkedListScenarios.InsertAtTailThenGet | src/data_structures/linked_list.rs:266-277 | two tail inserts, then `get(1)` is 2; `get_by_index_in_numeric_list` (lines 509-518) runs the same steps and is covered by this member too |
| LinkedListScenarios.InsertAtHeadThenGet | src/data_structures/linked_list.rs:278-289 | two head inserts, then `get(0)` is the second value |
| LinkedListScenarios.InsertAtIthToTail | src/data_structures/linked_list.rs:291-302 | inserting at 0 then at 1 puts 2 at index 1 |
| LinkedListScenarios.InsertAtIthToHead | src/data_structures/linked_list.rs:304-315 | two inserts at 0 put 2 at index 0 |
| LinkedListScenarios.InsertAtIthToMiddle | src/data_structures/linked_list.rs:317-335 | an insert at 1 into [1, 2] gives 3 at index 1 and 2 at index 2 |
| LinkedListScenarios.MiddleInsertDelete | src/data_structures/linked_list.rs:337-365 | four positional inserts, a middle delete and a re-insert leave 0, 1, 2, 3 |
| LinkedListScenarios.ManyIterations | src/data_structures/linked_list.rs:367-399 | 100 inserts, deletes at even indices below 50 give length 75, re-inserts give 100, and `get(78)` is 78 |
| LinkedListScenarios.DeleteTailScenario | src/data_structures/linked_list.rs:401-418 | `delete_tail` on [1, 2] returns 2 and leaves 1 at index 0 |
| LinkedListScenarios.DeleteHeadScenario | src/data_structures/linked_list.rs:420-437 | `delete_head` on [1, 2] returns 1 and leaves 2 at index 0 |
| LinkedListScenarios.DeleteIthAtTailAsWritten | src/data_structures/linked_list.rs:439-452 | `delete_ith(1)` on [1, 2] returns 2 and leaves length 1, yet head and tail differ; dropping the list at the end of the test still releases its one node |
| LinkedListScenarios.DeleteIthAtTailCorrected | src/data_structures/linked_list.rs:439-452 | with the corrected delete, the same calls leave a one-node list whose head is its tail |
| LinkedListScenarios.DeleteIthAtHead | src/data_structures/linked_list.rs:454-467 | `delete_ith(0)` on [1, 2] returns 1 and leaves length 1 |
| LinkedListScenarios.DeleteIthInMiddle | src/data_structures/linked_list.rs:469-487 | `delete_ith(1)` on [1, 2, 3] returns 2, and `get(1)` is then 3 |
| LinkedListScenarios.NumericListLength | src/data_structures/linked_list.rs:489-497 | three tail inserts give length 3 |
| LinkedListScenarios.DisplayStrings | src/data_structures/linked_list.rs:499-507 | the strings A, B, C give length 3 and display as "A, B, C" |
| LinkedListScenarios.GetInStringList | src/data_structures/linked_list.rs:520-529 | `get(1)` on A, B is B |
| LinkedListScenarios.InsertThenDeleteTail | src/data_structures/linked_list.rs:79-171 | on any valid list, `insert_at_tail(v)` then `delete_tail()` returns `v` and restores the contents and length |
| LinkedListScenarios.InsertAtZeroThenGet | src/data_structures/linked_list.rs:99-139 | on any valid list, `insert_at_ith(0, v)` then `get(0)` is `v` |
| BinarySearchTree.New | src/data_structures/binary_search_tree.rs:17-23 | `new` stores no key and is a search tree |
| BinarySearchTree.Search | src/data_structures/binary_search_tree.rs:25-43 | `search` answers true only for stored keys |
| BinarySearchTree.SearchCorrect | src/data_structures/binary_search_tree.rs:25-43 | on a search tree, `search(v)` is true exactly when `v` is stored |
| BinarySearchTree.Leaf | src/data_structures/binary_search_tree.rs:59-64 | the new node built for an absent child holds just `v` and is a search tree |
| BinarySearchTree.Insert | src/data_structures/binary_search_tree.rs:45-68 | `insert(v)` adds exactly one occurrence of `v` (duplicates are kept); a tree without a key takes `v` as its key; the root key is otherwise unchanged |
| BinarySearchTree.InsertWellFormed | src/data_structures/binary_search_tree.rs:45-68 | `insert` keeps the shape: a keyless node has no children and every child has a key; on the new tree it only fills the root |
| BinarySearchTree.InsertOrdered | src/data_structures/binary_search_tree.rs:45-68 | `insert` keeps the search-tree invariant: keys `<` a node's key on its left, keys `>=` on its right |
| BinarySearchTree.Minimum | src/data_structures/binary_search_tree.rs:70-75 | the leftmost key is stored |
| BinarySearchTree.MinimumCorrect | src/data_structures/binary_search_tree.rs:70-75 | on a search tree, `minimum` is the least stored key, and None exactly when nothing is stored |
| BinarySearchTree.Maximum | src/data_structures/binary_search_tree.rs:77-82 | the rightmost key is stored |
| BinarySearchTree.MaximumCorrect | src/data_structures/binary_search_tree.rs:77-82 | on a search tree, `maximum` is the greatest stored key, and None exactly when nothing is stored |
| BinarySearchTree.Floor | src/data_structures/binary_search_tree.rs:84-107 | an answer of `floor(v)` is a stored key `<= v` |
| BinarySearchTree.FloorCorrect | src/data_structures/binary_search_tree.rs:84-107 | on a search tree, `floor(v)` is the greatest stored key `<= v`, and None exactly when every key exceeds `v` |
| BinarySearchTree.FloorUnique | src/data_structures/binary_search_tree.rs:84-107 | at most one answer meets the floor specification, so `floor` is determined by it |
| BinarySearchTree.Ceil | src/data_structures/binary_search_tree.rs:109-131 | an answer of `ceil(v)` is a stored key `>= v` |
| BinarySearchTree.CeilCorrect | src/data_structures/binary_search_tree.rs:109-131 | on a search tree, `ceil(v)` is the least stored key `>= v`, and None exactly when every key is below `v` |
| BinarySearchTree.CeilUnique | src/data_structures/binary_search_tree.rs:109-131 | at most one answer meets the ceil specification |
| BinarySearchTree.InOrderElems | src/data_structures/binary_search_tree.rs:133-182 | the in-order walk lists every stored key exactly once (as a multiset it equals the contents) |
| BinarySearchTree.InOrderSorted | src/data_structures/binary_search_tree.rs:133-182 | on a search tree the in-order walk is non-decreasing |
| BinarySearchTree.BinarySearchTreeIter.constructor | src/data_structures/binary_search_tree.rs:149-153 | `iter`/`new`: the stack starts with the tree at the bottom and ends with a subtree that has no left child, and the keys pending are the whole in-order walk |
| BinarySearchTree.BinarySearchTreeIter.StackPushLeft | src/data_structures/binary_search_tree.rs:155-160 | pushes left children until the top has none: the old stack stays as the bottom of the new one, with the pushed subtrees above it; the pending keys gain exactly the old top's left subtree in order |
| BinarySearchTree.BinarySearchTreeIter.Next | src/data_structures/binary_search_tree.rs:169-181 | yields the first pending key and leaves the rest pending; yields None exactly when nothing is pending, and then the stack is empty |
| BinarySearchTree.BinarySearchTreeIter.TakeNext | src/data_structures/binary_search_tree.rs:169-181 | `n` calls of `next` yield the pending keys in order, then None for every further call, with the stack empty after the first None |
| BinarySearchTree.Collect | src/data_structures/binary_search_tree.rs:133-182 | draining the iterator yields the in-order walk: every stored key exactly once, in non-decreasing order on a search tree |
| BinarySearchTree.TakeStep | src/data_structures/binary_search_tree.rs:169-181 | one call of `next` yields the next key, or None past the end, and passes one more key |
| BinarySearchTreeScenarios.SampleBuilt | src/data_structures/binary_search_tree.rs:197-207 | inserting the seven sample keys into a new tree, in the test's order, builds `Sample` |
| BinarySearchTreeScenarios.SearchStored | src/data_structures/binary_search_tree.rs:209-216 | `search` finds the five stored keys of the sample tree |
| BinarySearchTreeScenarios.SearchAbsent | src/data_structures/binary_search_tree.rs:217-222 | `search` finds none of the three absent keys |
| BinarySearchTreeScenarios.MaximumAndMinimumSample | src/data_structures/binary_search_tree.rs:225-231 | the sample tree's maximum and minimum |
| BinarySearchTreeScenarios.MaximumAndMinimumIntegers | src/data_structures/binary_search_tree.rs:232-243 | None for the empty tree, then 0/0, -5/0 and -5/5 after inserting 0, -5 and 5 |
| BinarySearchTreeScenarios.FloorStored | src/data_structures/binary_search_tree.rs:249-257 | `floor` of a stored key is that key |
| BinarySearchTreeScenarios.FloorBetween | src/data_structures/binary_search_tree.rs:250-265 | `floor` between two stored keys is the lower one |
| BinarySearchTreeScenarios.FloorOutside | src/data_structures/binary_search_tree.rs:256-266 | `floor` below every key is None, above every key the maximum |
| BinarySearchTreeScenarios.CeilStored | src/data_structures/binary_search_tree.rs:267-278 | `ceil` of a stored key is that key |
| BinarySearchTreeScenarios.CeilBetween | src/data_structures/binary_search_tree.rs:268-286 | `ceil` between two stored keys is the upper one |
| BinarySearchTreeScenarios.CeilOutside | src/data_structures/binary_search_tree.rs:274-287 | `ceil` below every key is the minimum, above every key None |
| BinarySearchTreeScenarios.IterateSample | src/data_structures/binary_search_tree.rs:290-306 | the iterator yields the seven keys ascending, then None twice |
| BinarySearchTree.NextYieldsFirst | src/data_structures/binary_search_tree.rs:169-181 | read off `next`'s contract: it yields the first pending key, or None and nothing left |

## Left out

- `src/data_structures/queue.rs`: a thin wrapper whose operations forward to the standard library's linked list; it has no logic of its own.
- Raw memory (`NonNull`, `Box::into_raw`/`from_raw`, `PhantomData`, `unsafe`): nodes are Dafny heap objects, and freeing a node is its removal from `nodes` and `Repr`. Use after free is therefore not observable; the as-written `delete_ith` shows the dangling `tail` as a node outside `Repr`.
- The `println!` at linked_list.rs:132 and in the tests: output with no effect on state.
- `Display` of the element type is foreign: `Fmt` and `FmtNode` take the rendering of a value as a parameter `show`.
- LinkedList.LinkedList.InsertAtHead, InsertAtTail, InsertAtIth: the `u32` overflow of `length` is not modelled; every insertion requires `length < 0xFFFF_FFFF`.
- LinkedList.LinkedList.Get: the index is an unbounded integer; the `i32` range of the source's index is not modelled beyond "negative gives None".
- Panics (`index > length` in `insert_at_ith` and `delete_ith`) are preconditions, not behaviour.
- `delete_head` computes the new length with `checked_add_signed(-1).unwrap_or(0)`. The fallback to 0 is unreachable there (the list is not empty), so the model subtracts one.
- The `Repr` footprint is not required to be exactly the list object plus its nodes. Each method instead states how `Repr` changes: a fresh node added, or the removed node dropped.
- The BST tests use string keys. Dafny's `<` on strings is a prefix test, not lexicographic order, so the key type is `int`. The sample tree's strings are replaced by integers in the same order, and every absent query by an integer between the same stored neighbours.
- The BST iterator yields key values, not references; the tree cannot change while it is borrowed, so the two are interchangeable.
- `Default` for `BinarySearchTree` (binary_search_tree.rs:184-191) only calls `new`, which is modelled.
- The linked list's own `Display` tests print and assert nothing beyond the length; `create_numeric_list` is modelled without rendering integers.

## Findings

| source | as written | input that shows it | evidently intended | confidence | as-written member | corrected member |
|---|---|---|---|---|---|---|
| src/data_structures/linked_list.rs:187-206 | `delete_ith` with `0 < index == length - 1` unlinks the last node through its predecessor but never updates `self.tail`, which keeps naming the freed node | `[1, 2]`, then `delete_ith(1)`: returns 2 and length becomes 1, but `tail` still names the freed second node, so `head != tail` and a later `insert_at_tail` writes through the dangling `tail` | when the removed node has no successor, `tail` moves to its predecessor | not executed | LinkedList.LinkedList.DeleteIth | LinkedList.LinkedList.DeleteIthCorrected |
