# Three priority-queue engines, modelled and verified in Dafny

This project models three interchangeable priority queues: `SortedPQ`, `BinaryPQ` and `PairingPQ`. The element type is fixed to `int` and the comparator to `std::less`, so "most extreme" means "largest". Each engine keeps its storage in place, and each is modelled as a Dafny `class` whose methods update that storage.

- `sorted_pq.dfy` (module `SortedArray`): a vector kept in ascending order, with the top at the back.
  - `push` inserts at `std::upper_bound`. It is modelled as a binary search proved against a reference function, `FirstGreater`.
  - `pop` is `pop_back`, and does nothing on an empty vector.
  - `updatePriorities` is `std::sort`. It is modelled as an insertion sort, specified by "sorted and a permutation".
- `binary_pq.dfy` (module `BinaryHeap`): a one-indexed implicit binary heap in a vector with a sentinel at slot 0.
  - It has `fix_up`, `fix_down`, `push`, `pop`, `top` (`data.at(1)`, which throws on an empty queue), `size`, `empty`, and a bottom-up `updatePriorities` heapify.
  - Every loop is proved against heap-order predicates and the multiset of the queued elements.
- `pairing_trees.dfy` (module `PairingTrees`): the ghost view of a pairing heap, with the lemmas about it.
  - The view is a left-child/right-sibling tree (`Tree`) over node ids. `Rep` ties a tree to the arena's `child`/`sibling` links, and `Owned` ties it to the `parent` links.
  - Other definitions describe the nodes, elements and order of a tree.
  - Pure reference functions give the result of each state change: `Melded` (meld), `Pushed` (addNode), `Reduce(Spine(..))` (pop's FIFO pairwise melding), `Relinked` (moving a node under the root), and `CopyInto` (copyNode).
- `pairing_pq.dfy` (module `PairingHeap`): the pairing heap itself, as a class over an arena.
  - Node `i` has `elt[i]`, `child[i]`, `sibling[i]` and `parent[i]`, with -1 for `nullptr`. The class also holds `root` (`root_ptr`) and `pqSize` (`pq_size`, a `std::size_t` that counts modulo 2^64).
  - Each method is proved to leave exactly the state given by the reference functions above. The properties of that state are proved about those functions.
  - `pqSize` counting the nodes, `Ordered()` and the single-tree shape are separate predicates, because the source's `updateElt` and copy constructor do not keep all of them; see "## Findings".

Three behaviours of the code are modelled as written, although a reader might expect otherwise:
- `copyNode` does not recompute every parent link. A copied sibling's parent is set to the parent field of the new node before it, and that field is still null at that point. Only the first node of each copied child list records its parent. `CopyParents` states exactly this, and `CopyNotLinked` shows that a copy is then never fully linked once a child list holds two nodes.
- `pop` does not free the old root. The node stays in the arena, unreachable.
- `SortedPQ::pop` on an empty queue does nothing: it checks for emptiness before `pop_back`.

`updateElt` reads only the parent link of the node it moves. Its requirement is therefore `ParentKnown(node)`: that one link names the node whose child list holds `node`. It does not require every link to be correct.
- `addNode` gives its new node a correct link, on any single tree, copies included.
- `addNode`, `push`, `pop`, the corrected `updateElt` and the ordered case of `updateElt` as written keep every correct link correct (`KeepsKnown`).
- So a handle that `addNode` returns stays a valid argument of the corrected `updateElt` through any sequence of these calls, on a copy as well as on the original.

## Model

| member | source | states |
|---|---|---|
| SortedArray.FirstGreater | SortedPQ.hpp:66 | reference position of `upper_bound`: a bound no greater than the length, every element before it at most `v`, the element at it greater than `v` |
| SortedArray.FirstGreaterSplits | SortedPQ.hpp:66 | on a sorted sequence, a split point with everything before it at most `v` and everything after it greater is exactly `FirstGreater` |
| SortedArray.UpperBound | SortedPQ.hpp:66 | binary search returns `FirstGreater(s, v)`, and every element from there on is greater than `v` |
| SortedArray.InsertAtUpperBound | SortedPQ.hpp:65-70 | inserting `v` at its upper bound keeps the sequence sorted and adds exactly one `v` to its multiset |
| SortedArray.SortedUnique | SortedPQ.hpp:116-119 | two sorted sequences with the same multiset are equal, so sorting a sorted vector leaves it as it was |
| SortedArray.Sort | SortedPQ.hpp:117 | the result is sorted and a permutation of the input, and it equals a sorted input |
| SortedArray.SortedPQ.constructor | SortedPQ.hpp:24-28 | an empty, sorted vector |
| SortedArray.SortedPQ.FromSeq | SortedPQ.hpp:35-43 | the vector holds the input's multiset, sorted; a sorted input is kept as given |
| SortedArray.SortedPQ.Push | SortedPQ.hpp:65-70 | the new vector is the old one with `val` inserted at `FirstGreater`; sortedness is kept and the multiset gains `val` |
| SortedArray.SortedPQ.Pop | SortedPQ.hpp:79-85 | an empty vector stays empty; otherwise the last element goes, the prefix stays, and the multiset loses exactly the old top |
| SortedArray.SortedPQ.Top | SortedPQ.hpp:93-98 | the back element is in the queue, and in a sorted vector no element is greater |
| SortedArray.SortedPQ.Size | SortedPQ.hpp:104 | the number of queued elements |
| SortedArray.SortedPQ.Empty | SortedPQ.hpp:110 | true exactly when nothing is queued |
| SortedArray.SortedPQ.UpdatePriorities | SortedPQ.hpp:116-119 | the vector ends sorted with the same multiset, and a sorted vector is unchanged |
| BinaryHeap.HeapRootIsMax | BinaryPQ.hpp:103-105 | in a heap, no slot holds an element greater than slot 1 |
| BinaryHeap.SiftDownStep | BinaryPQ.hpp:149-159 | swapping a slot with its larger child, when that child is not smaller, moves the single heap-order exception down to the child |
| BinaryHeap.SiftDownStops | BinaryPQ.hpp:155-157 | when the larger child is smaller than the slot, the heap order holds everywhere from `lo` down |
| BinaryHeap.SiftDownLeaf | BinaryPQ.hpp:149 | a slot without children carries no exception |
| BinaryHeap.MoveLastToFront | BinaryPQ.hpp:90-91 | overwriting slot 1 with the back and dropping the back removes exactly one old `data[1]` from the queued multiset |
| BinaryHeap.MoveLastKeepsOrder | BinaryPQ.hpp:90-94 | after that move, only slot 1 may be out of order, and with at most one element left there is nothing to fix |
| BinaryHeap.BinaryPQ.constructor | BinaryPQ.hpp:22-26 | only the default-valued sentinel; an empty heap |
| BinaryHeap.BinaryPQ.FromSeq | BinaryPQ.hpp:33-41 | the sentinel followed by exactly the input's multiset, in heap order |
| BinaryHeap.BinaryPQ.FixUp | BinaryPQ.hpp:139-144 | the length, slot 0 and the multiset are kept; if only the edge above `index` was out of order, the result is a heap |
| BinaryHeap.BinaryPQ.FixDown | BinaryPQ.hpp:147-161 | the length, slot 0 and the multiset are kept; if only `index` was out of order below `lo`, everything below `lo` is in heap order |
| BinaryHeap.BinaryPQ.Swap | BinaryPQ.hpp:141 | the two slots trade values, every other slot is kept, and so is the multiset |
| BinaryHeap.BinaryPQ.Push | BinaryPQ.hpp:76-80 | one more slot, the sentinel kept, the multiset gains `val`, and heap order is preserved |
| BinaryHeap.BinaryPQ.Pop | BinaryPQ.hpp:89-95 | one slot fewer, the sentinel kept, exactly one old `data[1]` removed, and heap order is preserved |
| BinaryHeap.BinaryPQ.Top | BinaryPQ.hpp:103-108 | `None` exactly when the queue is empty; otherwise a queued element that no element exceeds in a heap |
| BinaryHeap.BinaryPQ.HeapMaxAll | BinaryPQ.hpp:103-105 | in a heap, every queued element is at most `data[1]` |
| BinaryHeap.BinaryPQ.Size | BinaryPQ.hpp:113-117 | vector length minus the sentinel is the number of queued elements |
| BinaryHeap.BinaryPQ.Empty | BinaryPQ.hpp:122-131 | true exactly when nothing is queued |
| BinaryHeap.BinaryPQ.UpdatePriorities | BinaryPQ.hpp:64-71 | any contents become a heap with the same multiset, length and sentinel |
| PairingHeap.Inc | PairingPQ.hpp:279 | `++pq_size` on `std::size_t`: one more, or 0 after 2^64 - 1 |
| PairingHeap.Dec | PairingPQ.hpp:200 | `--pq_size`: one less, or 2^64 - 1 below 0 |
| PairingHeap.IncMod | PairingPQ.hpp:66-69 | counting `i + 1` pushes from `i` pushes modulo 2^64 |
| PairingHeap.PrefixSnoc | PairingPQ.hpp:66-69 | the elements pushed so far grow by exactly the next input element |
| PairingTrees.TopIsMax | PairingPQ.hpp:211-215 | in a heap-ordered single tree, no element is greater than the root's |
| PairingTrees.Melded | PairingPQ.hpp:292-304 | meld's winner is the second root when the first's element is less, otherwise the first; the winner is no smaller than either root and keeps its sibling |
| PairingTrees.MeldContents | PairingPQ.hpp:292-304 | melding two sibling-free trees gives a sibling-free tree with exactly the union of their nodes, the sum of their elements and of their counts |
| PairingTrees.MeldKeepsOrder | PairingPQ.hpp:292-304 | meld keeps nodes distinct for disjoint inputs, and keeps heap order for heap-ordered sibling-free inputs |
| PairingTrees.MeldRep | PairingPQ.hpp:292-304 | the two link updates meld makes turn the arena into the links of the melded tree |
| PairingTrees.MeldOwned | PairingPQ.hpp:292-304 | the one parent update meld makes leaves every parent link of the melded tree correct |
| PairingTrees.Pushed | PairingPQ.hpp:272-283 | addNode's tree has the new node or the old root on top, and a single tree or none stays a single tree |
| PairingTrees.PushedProps | PairingPQ.hpp:272-283 | addNode on a single tree or none adds exactly the new node and its element, and keeps heap order |
| PairingTrees.PushedCount | PairingPQ.hpp:272-283 | addNode on a single tree or none counts one node more |
| PairingTrees.PushedOwner | PairingPQ.hpp:274-278 | after addNode, the loser of the meld is owned by the winner, the winner by nothing, and every other node keeps its owner |
| PairingTrees.PushedKnown | PairingPQ.hpp:272-283 | addNode's parent writes give the new node a correct parent link and keep every correct parent link correct |
| PairingTrees.KeepsKnownPrefix | PairingPQ.hpp:273 | parent cells added at the arena's end do not affect which old links were correct |
| PairingTrees.Spine | PairingPQ.hpp:179-188 | the trees pop queues are sibling-free, one per node of the child list, in list order |
| PairingTrees.SpineIds | PairingPQ.hpp:179-188 | the nodes pop visits along the sibling links all belong to the list |
| PairingTrees.SpineProps | PairingPQ.hpp:179-188 | cutting a child list into its trees loses no node or element, gives disjoint trees for a tree, and each is heap-ordered when the list was |
| PairingTrees.SpineCutRep | PairingPQ.hpp:182-188 | clearing the sibling link of each node of a list leaves each node heading its own tree in the arena |
| PairingTrees.SpineCutOwned | PairingPQ.hpp:184 | clearing the parent link of each node of a list leaves each of its trees with correct parent links |
| PairingTrees.SpineKnown | PairingPQ.hpp:182-188 | after the first loop of pop, every node of the root's child list whose link was correct has a correct link in the forest of queued trees |
| PairingTrees.SpineCut | PairingPQ.hpp:182-188 | the first loop of pop as a whole: the queued trees are disjoint, each headed by its node, and correct parent links (all, or some) stay correct |
| PairingTrees.Reduce | PairingPQ.hpp:191-199 | the reduction is empty exactly for an empty queue, and otherwise a sibling-free tree |
| PairingTrees.ReduceStepKnown | PairingPQ.hpp:192-196 | one meld of the two front trees keeps every correct parent link of the forest correct |
| PairingTrees.ForestKnownLast | PairingPQ.hpp:199 | once at most one tree is left, the forest's correct links are those of that tree |
| PairingTrees.OwnerInForestAt | PairingPQ.hpp:191-199 | a node of a forest of disjoint trees is owned as in the tree holding it |
| PairingTrees.ReduceStepContents | PairingPQ.hpp:191-197 | one meld of the two front trees appended at the back keeps the forest's nodes and elements |
| PairingTrees.ReduceProps | PairingPQ.hpp:191-199 | FIFO pairwise melding keeps every node and element, leaves no tree exactly for an empty forest and otherwise one sibling-free tree, and keeps disjointness and heap order |
| PairingTrees.PopKnown | PairingPQ.hpp:174-199 | pop keeps every correct parent link of the nodes that remain correct |
| PairingTrees.PopIds | PairingPQ.hpp:174-199 | after pop, a single tree reaches exactly its old nodes minus the old root |
| PairingTrees.PopElems | PairingPQ.hpp:174-199 | after pop, the contents lose exactly the old root's element |
| PairingTrees.PopShape | PairingPQ.hpp:174-199 | after pop, no node appears twice, the result is a single tree, and heap order is kept |
| PairingTrees.PopCount | PairingPQ.hpp:174-200 | after pop, a single tree has exactly one node fewer |
| PairingTrees.Sub | PairingPQ.hpp:244-258 | the subtree at a reachable node starts at that node and holds only nodes of the tree |
| PairingTrees.Detach | PairingPQ.hpp:244-258 | taking a node off its list adds no node |
| PairingTrees.DetachIds | PairingPQ.hpp:244-258 | taking a node off its list removes exactly that node and its subtree from what the root reaches |
| PairingTrees.DetachElems | PairingPQ.hpp:244-258 | the remaining tree and the detached node's tree together hold the old elements |
| PairingTrees.DetachOrder | PairingPQ.hpp:244-258 | both parts of a detached heap-ordered tree are heap-ordered |
| PairingTrees.UnlinkRep | PairingPQ.hpp:244-257 | the one link update of the splice, plus clearing the node's sibling, yields the links of the remaining tree and of the detached node's tree |
| PairingTrees.SpineLinks | PairingPQ.hpp:249-252 | a child list's node ids follow one another along the sibling links, start at the list's head, and (in a tree) do not repeat |
| PairingTrees.UnlinkOwned | PairingPQ.hpp:257 | after the node's parent is cleared, both parts have correct parent links |
| PairingTrees.OwnerIn | PairingPQ.hpp:245-253 | the owner of a reachable node, other than the outer owner, is a node of the tree |
| PairingTrees.OwnedOwner | PairingPQ.hpp:245-253 | with all parent links correct, each records exactly the owner `OwnerIn` gives |
| PairingTrees.OwnerInList | PairingPQ.hpp:245-253 | a node's owner is the outer owner for a node of the top list, and otherwise a node whose child list holds it, which is where the splice looks |
| PairingTrees.MeldOwner | PairingPQ.hpp:292-304 | after meld, the loser is owned by the winner, the winner by nothing, and every other node keeps its owner |
| PairingTrees.DetachOwner | PairingPQ.hpp:244-255 | taking a node off its list keeps the owner of every node that stays |
| PairingTrees.SubOwner | PairingPQ.hpp:244-255 | the nodes below the moved node keep their owners within its child list |
| PairingTrees.RelinkedKnown | PairingPQ.hpp:244-260 | the splice's parent writes and the final meld keep every correct parent link correct |
| PairingTrees.Relinked | PairingPQ.hpp:244-260 | detaching a non-root node and melding it with the root gives a tree, and a single tree stays single |
| PairingTrees.RelinkedIds | PairingPQ.hpp:244-260 | moving a node under the root keeps exactly the same nodes, none twice |
| PairingTrees.RelinkedCount | PairingPQ.hpp:244-260 | moving a node under the root keeps the node count |
| PairingTrees.RelinkedElems | PairingPQ.hpp:242-260 | changing a node's element and moving it replaces that one element in the contents |
| PairingTrees.RelinkedOrder | PairingPQ.hpp:242-260 | raising a node's element and moving it under the root keeps heap order |
| PairingTrees.RaiseRootElems | PairingPQ.hpp:242 | changing the root's element in place replaces that one element in the contents |
| PairingTrees.RaiseRootOrder | PairingPQ.hpp:242 | raising the root's element in place keeps heap order |
| PairingTrees.CopiedProps | PairingPQ.hpp:320-337 | a same-shape copy holds the same elements and node count, is a single tree exactly when the original is, and is heap-ordered exactly when the original is |
| PairingTrees.CopyInto | PairingPQ.hpp:320-337 | copyNode appends nodes only, returns null for null, and numbers every copied node after the arena's old end |
| PairingTrees.CopyIntoGrown | PairingPQ.hpp:320-337 | copyNode leaves every existing cell as it was |
| PairingTrees.CopyIntoDistinct | PairingPQ.hpp:320-337 | the copy has no node twice |
| PairingTrees.CopyIntoRep | PairingPQ.hpp:320-337 | in the new arena, the returned node heads exactly the copied tree |
| PairingTrees.CopyIntoCopied | PairingPQ.hpp:320-337 | the copy has the original's shape, with each node holding its original's element |
| PairingTrees.CopyParentLinks | PairingPQ.hpp:329-334 | the two parent writes of copyNode change only parent cells |
| PairingTrees.CopyParentLinksAt | PairingPQ.hpp:329-334 | the child records the new node as parent, the sibling records the new node's own parent field, and no other parent cell changes |
| PairingTrees.CopyNotLinked | PairingPQ.hpp:329-334 | a copy whose root's child list holds two nodes cannot have all parent links correct |
| PairingTrees.CopyIntoParents | PairingPQ.hpp:326-335 | the first node of each copied child list records its parent, and every later node of a copied list records null |
| PairingTrees.CopyIntoProps | PairingPQ.hpp:76-90 | a copy into an empty arena is a tree of the original's shape with the same elements, count, single-tree shape and heap order, and `CopyParents` links |
| PairingHeap.PairingPQ.constructor | PairingPQ.hpp:52-56 | an empty heap with an empty arena, size 0 and all invariants |
| PairingHeap.PairingPQ.Meld | PairingPQ.hpp:292-304 | exactly meld's three field updates in each branch, and the arena then holds `Melded` of the two trees, with correct parent links for sibling-free inputs |
| PairingHeap.PairingPQ.NewNode | PairingPQ.hpp:273 | a fresh node at the end of the arena holding `val` with null links; nothing reachable changes |
| PairingHeap.PairingPQ.Attach | PairingPQ.hpp:274-278 | the fresh node is melded with the root, or becomes the root; the tree becomes `Pushed`, the new node gets a correct parent link and correct links stay correct |
| PairingHeap.PairingPQ.AddNode | PairingPQ.hpp:272-283 | returns the fresh node; the tree becomes `Pushed`, size goes up modulo 2^64, and the contents gain `val`; heap order, single-tree shape, parent links and the count are kept; the returned handle has a correct parent link and every correct link stays correct |
| PairingHeap.PairingPQ.Push | PairingPQ.hpp:164 | as AddNode, without the handle |
| PairingHeap.PairingPQ.CollectChildren | PairingPQ.hpp:179-188 | the queue holds the root's children in order, each now the head of its own tree; all the parent links, or any set of correct ones, stay correct |
| PairingHeap.PairingPQ.MeldPairs | PairingPQ.hpp:191-199 | the remaining node heads `Reduce` of the queued trees; all the parent links, or any set of correct ones, stay correct |
| PairingHeap.PairingPQ.Pop | PairingPQ.hpp:174-202 | no change on an empty heap; otherwise the tree becomes the FIFO reduction of the old root's children, size goes down, the contents lose exactly the old top, and shape, heap order, count and parent links are kept; every correct parent link stays correct |
| PairingHeap.PairingPQ.Unlink | PairingPQ.hpp:244-258 | given `node`'s correct parent link: the node is off its parent's child list, what the root reaches is `Detach` of the old tree, the node heads its old child list, and only its parent cell changes, to null |
| PairingHeap.PairingPQ.FindBefore | PairingPQ.hpp:249-253 | the scan finds the node whose sibling is `node` on the parent's child list |
| PairingHeap.PairingPQ.UpdateElt | PairingPQ.hpp:240-262 | as written, given `node`'s correct parent link when the guard holds: nothing changes unless the new value is less; otherwise the element is overwritten, the node moved, and the root left as it was; in a heap-ordered tree, correct links stay correct |
| PairingHeap.PairingPQ.Relink | PairingPQ.hpp:244-260 | given `node`'s correct parent link: unlink the node and make `root_ptr` the result of melding it with the root; the tree becomes `Relinked` and correct links stay correct |
| PairingHeap.PairingPQ.UpdateEltFixed | PairingPQ.hpp:240-262 | corrected, given `node`'s correct parent link when it is moved: a greater value replaces the element: at the root in place, with the root, the tree and every link unchanged; elsewhere by moving the node, the tree becoming `Relinked`; contents, nodes, heap order, size, count and correct parent links are kept right |
| PairingHeap.PairingPQ.CopyNode | PairingPQ.hpp:320-337 | the arena, the returned node and the copied tree are exactly those of `CopyInto` |
| PairingHeap.PairingPQ.FromSeq | PairingPQ.hpp:62-71 | pushing each input element gives a heap-ordered single tree holding the input, with that many nodes and size modulo 2^64 |
| PairingHeap.PairingPQ.Copy | PairingPQ.hpp:76-90 | as written: the original's contents, count, shape and order are copied with `CopyParents` links, and size is left at 0 |
| PairingHeap.PairingPQ.CopyFixed | PairingPQ.hpp:76-90 | corrected: as Copy, with the original's size |
| PairingHeap.PairingPQ.Assign | PairingPQ.hpp:95-111 | self-assignment changes nothing; otherwise the target gets rhs's size, contents, count, shape and order, with `CopyParents` links |
| PairingHeap.PairingPQ.Top | PairingPQ.hpp:211-215 | the root's element is in the heap, and in a heap-ordered single tree no element is greater |
| PairingHeap.PairingPQ.Size | PairingPQ.hpp:220-223 | `pq_size`, which is the node count when counted |
| PairingHeap.PairingPQ.Empty | PairingPQ.hpp:227-230 | `pq_size == 0`, which for a counted heap holds exactly when there is no root and no element |
| PairingHeap.RaiseIgnored | PairingPQ.hpp:241 | updateElt as written leaves 10 on top after raising the only element from 10 to 20 |
| PairingHeap.RaiseApplied | PairingPQ.hpp:241 | the corrected updateElt puts 20 on top for the same call |
| PairingHeap.CopyLosesSize | PairingPQ.hpp:79 | a copy as written of a one-element heap holds the element but reports size 0 and empty |
| PairingHeap.CopyKeepsSize | PairingPQ.hpp:79 | the corrected copy reports size 1 |
| PairingHeap.RaiseAdded | PairingPQ.hpp:241-283 | on any heap-ordered single tree, a handle from addNode raised with the corrected updateElt replaces the added element by the raised one, in heap order |
| PairingHeap.RaiseInCopy | PairingPQ.hpp:76-90 | the same holds on a copy, whose parent links need not all be correct |

## Left out

- Memory management (`new`, `delete`, `clear`, the destructor; PairingPQ.hpp:116-118, 307-318) is not modelled. Node allocation is appending to the arena. `Assign` models `clear` by emptying the arena. pop's old root stays in the arena, unreachable.
- `PairingPQ::updatePriorities` (PairingPQ.hpp:132-156) is not modelled. It calls `front()` and `pop_front()` on a deque that can be empty (undefined behaviour), it never clears links, and it never updates `root_ptr`.
- Move constructors, move assignments, and the defaulted copy operations of `BinaryPQ` and `SortedPQ`: nothing to model.
- The `Eecs281PQ` base class, virtual dispatch, and the `TYPE`/`COMP_FUNCTOR` and iterator template parameters: the model uses `int` with `<`, and a range is a `seq<int>`.
- `std::sort`, `std::upper_bound` and `std::swap` are modelled by their postconditions, with a simple algorithm meeting each. They are not copies of the library code.
- `fix_up`/`fix_down` carry a non-deducible `template <typename T>`, and `SortedPQ`'s range constructor calls `updatePriorities(data)` on a method that takes no argument. The model takes the evident intent in both places.
- PairingHeap.PairingPQ.UpdateElt: requires `node != root` when its guard holds. Otherwise `meld(root_ptr, node)` would make the root its own child.
- PairingHeap.PairingPQ.UpdateElt: requires a single tree, and the correct parent link of `node` when the guard holds. The source reads that link and nothing else of the parent links. Its contract gives the new contents and shape only for a heap-ordered tree, where the moved node cannot beat the root.
- PairingHeap.PairingPQ.UpdateEltFixed: requires a single tree, and the correct parent link of `node` when it is moved.
- PairingHeap.PairingPQ.Copy: the copy meets `CopyParents`, not `Linked()`, because of how `copyNode` sets parent links. Copied nodes are never handed out as handles; only handles that `addNode` returns on the copy are, and those have correct links.
- PairingHeap.PairingPQ.AddNode: keeps `Counted()` only while `pq_size + 1` stays below 2^64.
- PairingHeap.PairingPQ.Top: requires a root; the source dereferences `nullptr` on an empty heap.
- BinaryHeap.BinaryPQ.Pop: requires a non-empty queue; the source writes `data[1]` out of bounds on an empty one.
- SortedArray.SortedPQ.Top: requires a non-empty vector; `data.back()` is undefined on an empty one.

## Findings

| source | as written | input that shows it | evidently intended | confidence | as-written member | corrected member |
|---|---|---|---|---|---|---|
| PairingPQ.hpp:241-260 | the guard is `compare(new_value, node->elt)`, so the update applies only when the new value is smaller, against the stated precondition; `meld(root_ptr, node)`'s result is dropped | a heap holding 10 with handle `h`; `updateElt(h, 20)`; the top stays 10 | apply when `compare(node->elt, new_value)`, overwrite in place at the root, and otherwise set `root_ptr = meld(root_ptr, node)` | not executed | PairingHeap.PairingPQ.UpdateElt, PairingHeap.RaiseIgnored | PairingHeap.PairingPQ.UpdateEltFixed, PairingHeap.RaiseApplied |
| PairingPQ.hpp:79 | the copy constructor sets `pq_size = 0` and never copies it | a copy of a heap holding 7 has `size() == 0` and `empty()` | `pq_size = other.pq_size` | not executed | PairingHeap.PairingPQ.Copy, PairingHeap.CopyLosesSize | PairingHeap.PairingPQ.CopyFixed, PairingHeap.CopyKeepsSize |
