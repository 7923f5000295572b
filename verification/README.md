# Verified model of a singly-linked list of memory blocks

This project models `LinkedList`, the list an allocator keeps its free and
allocated memory blocks in. The list is singly linked. It caches references
to its `first` and `last` nodes and keeps a `size` counter. It supports:

- positional insertion: `add`, `addFirst`, `addLast`;
- positional lookup: `getNode`, `getBlock`;
- lookup by value: `indexOf`;
- three kinds of removal: by node, by index and by block value.

The Dafny files are:

- `memory_block.dfy` (`MemoryBlocks`): the block record. The list only
  compares blocks with `equals`. The model assumes that is value equality,
  so the record is a datatype with structural equality.
- `wrappers.dfy` (`Wrappers`): `Option` stands for a nullable reference.
  `Result` stands for "returns normally, or throws before writing any field".
- `heap.dfy` (`Heap`): the Java heap as an arena `seq<Node>`.
  - A reference is an index into the arena, and `new Node(block)` appends a
    cell (`Alloc`). The field write `r.next = x` is `SetNext`. `SpliceAfter`
    is the allocation plus the two writes that link a node in mid-list.
  - `IsChain` says that a sequence of references is exactly the chain reached
    by following `next`: every reference is allocated, none repeats, and the
    last successor is null.
  - The lemmas in this module show what linking a new node or unlinking a
    node does to such a chain.
- `block_seq.dfy` (`BlockSeq`): the reference definitions every list
  operation is specified against: `Insert`, `Delete`, `FirstIndex`. It also
  holds lemmas that relate them to each other.
- `linked_list.dfy` (`LinkedLists`): the class itself.
  - The fields `first`, `last` and `size` plus the arena form the immutable
    datatype `LinkedList`.
  - Each Java method is a Dafny method or function. It takes the list and
    returns the list as it is afterwards, or the exception it throws (`Error`).
  - `Valid` is the class invariant:
    - following `next` from `first` visits exactly `size` distinct nodes and
      ends at a null successor;
    - `last` is the final node reached;
    - `first` and `last` are both null exactly when `size` is 0.
  - `Spine` is the sequence of node references from `first` to `last`, and
    `Blocks` is the abstract contents. Every method requires `Valid`,
    re-establishes it, and states its effect on both. A mutator keeps every
    surviving node and changes only `next` fields (`Heap.KeepsBlocks`), so a
    reference handed out by `getFirst`, `getLast` or `getNode` keeps
    denoting the same block afterwards. Each mutator also writes at most
    one old node (`Heap.WritesAtMost`). That node is `Predecessor(l, k)`:
    node `k - 1` for a change at position `k`, or none at the head. So a
    node that is unlinked keeps its own successor.
  - The loops walk the arena as the Java loops walk the heap, with the same
    guards and counters.

Where the Javadoc and the code disagree, the model follows the code:

- `getNode(size)` returns null, as the code does (LinkedList.java:68).
- `getBlock(size)` on a non-empty list returns null, although its Javadoc
  says it throws for `index >= size` (LinkedList.java:156, 172).
- `remove(int)` with `index == size` on a non-empty list changes nothing.
  Its Javadoc says it throws for `index >= size` (LinkedList.java:242, 266-268).
- `remove(0)` on an empty list passes the guard. It then dereferences the
  null `first` at LinkedList.java:252. The model returns
  `Failure(NullPointer)` in that case.
- `remove(Node)` removes the first node whose block equals the argument's
  block. That need not be the argument node (LinkedList.java:205).
  `remove(Node)` reads nothing of the argument but its `block` field, so
  `RemoveNode` takes the node as a value (`Option<Node>`, null being `None`)
  rather than as a reference into the list's arena.

## Model

| member | source | states |
|---|---|---|
| LinkedLists.Establish | LinkedList.java:6-8 | When the references from `first` form a chain whose length is `size` and whose last node is `last`, the list is valid and that chain is its node sequence. |
| Heap.ChainIsWalk | LinkedList.java:6-8 | A chain of distinct nodes ending in a null `next` is exactly what a walk from its head visits, so the node sequence of a valid list is determined by `first`. |
| LinkedLists.Empty | LinkedList.java:13-17 | A new list is valid and empty, and `size` is 0 with `first` and `last` both null. |
| LinkedLists.GetFirst | LinkedList.java:23-25 | `getFirst` is null exactly when the list is empty. Otherwise it is the reference `first`, which is node 0 of the spine and holds block 0. |
| LinkedLists.GetLast | LinkedList.java:31-33 | `getLast` is null exactly when the list is empty. Otherwise it is the reference `last`, which is the final node of the spine: it holds the last block and its successor is null. |
| LinkedLists.GetSize | LinkedList.java:39-41 | `getSize` equals the number of blocks reachable from `first`. |
| LinkedLists.GetNode | LinkedList.java:52-69 | An index outside 0..size throws IllegalArgument. For `0 <= i < size` the result is node `i`, which holds block `i`. For `i == size` the result is null. |
| LinkedLists.LinkFirstNode | LinkedList.java:94-106 | Front insertion leaves a valid list whose blocks are `block` followed by the old blocks. The fresh node heads the spine, ahead of every old node, and holds `block`. On a non-empty list `last` is unchanged. No old node is written at all. This covers the empty list, where the node also becomes `last`. |
| Heap.Alloc | LinkedList.java:94 | `new Node(block)` adds one cell holding `block` with a null successor, and leaves every existing cell as it was. |
| Heap.SpliceAfter | LinkedList.java:117-118 | Allocating a node and linking it in after `cur` makes the fresh node's successor the old `cur.next`, and makes the fresh node `cur`'s successor. Every other cell is unchanged, and every block is kept. |
| Heap.SetNext | LinkedList.java:102-307 | A write to `x.next` changes only that field of that node; every other cell, and every block, is as before. This is every `next` write of the class: lines 102, 108, 118, 229, 232, 270, 273, 305 and 307. |
| Heap.LinkFirst | LinkedList.java:101-103 | A fresh node whose successor is the old head, taken as the new head, extends the chain at the front. |
| Heap.LinkFirstContents | LinkedList.java:101-103 | Through the blocks, that new head puts its block in front and changes no other block. |
| LinkedLists.LinkLastNode | LinkedList.java:107-111 | Back insertion into a non-empty list appends `block` to the blocks and the fresh node to the spine. `last` then holds `block` and `first` is unchanged. The old `last` is the only old node written. |
| LinkedLists.NodeBefore | LinkedList.java:113-124 | The interior walk of `add` stops at node `index - 1`, whose successor is node `index`. |
| LinkedLists.LinkAfterNode | LinkedList.java:117-119 | Linking after node `index - 1` inserts `block` at position `index` and the fresh node at the same position of the spine. `first` and `last` are unchanged, and the list stays valid. Node `index - 1` is the only old node written. |
| Heap.LinkAfter | LinkedList.java:116-119 | Setting the new node's `next` to `current.next` and then `current.next` to the new node splices the new node in after `current` and keeps the chain well formed. |
| Heap.LinkAfterContents | LinkedList.java:116-119 | That splice puts the new node's block at position `index` and moves no other block. |
| LinkedLists.Add | LinkedList.java:89-125 | An index outside 0..size throws IllegalArgument before any change. Otherwise the list stays valid, its blocks become `Insert(old, index, block)` and its spine gets the one fresh node at `index`. Node `index - 1` is the only old node written, and none is written for index 0. `first` is unchanged unless `index` is 0, and `last` is unchanged unless `index` is `size`. |
| LinkedLists.AddLast | LinkedList.java:134-136 | `addLast` never throws. It appends `block` to the blocks and a fresh node to the spine, and `last` then holds `block`. On a non-empty list `first` is unchanged. Only the old `last` is written. |
| LinkedLists.AddFirst | LinkedList.java:145-147 | `addFirst` never throws. It puts `block` in front of the blocks and a fresh node in front of the spine, and `first` then holds `block`. On a non-empty list `last` is unchanged. No old node is written. |
| LinkedLists.AddAllFirst | LinkedList.java:145-147 | Calling `addFirst` on each of a sequence of blocks in turn leaves them ahead of the old contents in reverse order. The result equals repeated insertion at position 0 of the contents. |
| BlockSeq.PrependAllReverses | LinkedList.java:145-147 | Adding blocks one after another at the front leaves them in reverse order of insertion, ahead of the earlier contents. |
| LinkedLists.GetBlock | LinkedList.java:158-173 | A negative index, an index past `size`, or any index into an empty list throws IllegalArgument. For `0 <= i < size` the result is block `i`. For `i == size > 0` the result is null. |
| BlockSeq.FirstIndex | LinkedList.java:182-193 | The result is -1 exactly when no element equals the block. Otherwise it is a position holding the block, and no earlier position holds it. |
| LinkedLists.IndexOf | LinkedList.java:182-193 | The linear scan returns the least position whose block equals the argument, or -1 when there is none. |
| LinkedLists.UnlinkFirstNode | LinkedList.java:249-257 | Moving `first` to its successor, and clearing `last` when the list becomes empty, deletes block 0 and node 0 of the spine. No node field is written, and the list stays valid. |
| Heap.ChainTail | LinkedList.java:251-252 | Past its head, a chain is the chain that starts at the head's successor. |
| LinkedLists.UnlinkNextNode | LinkedList.java:269-275 | Unlinking node `index` (at least 1) through its predecessor deletes block `index` and node `index` of the spine, and keeps the list valid. At the tail the predecessor becomes `last`; elsewhere `last` is unchanged. `first` is unchanged, and the predecessor is the only node written. |
| Heap.UnlinkAfter | LinkedList.java:269-274 | Pointing the predecessor's `next` past the removed node, which is null at the tail, removes that node from the chain and keeps the chain well formed. |
| Heap.UnlinkAfterContents | LinkedList.java:269-274 | That relinking deletes exactly the removed node's block and keeps the order of the rest. |
| LinkedLists.Unlink | LinkedList.java:249-275 | Index 0 on an empty list is a null dereference. For `index < size`, block `index` and node `index` are deleted, and the list stays valid. Only node `index - 1` is written, and no node is written for index 0. `first` moves on only for index 0, and `last` falls back to the predecessor only for the final index. For `0 < index == size` nothing changes. |
| LinkedLists.RemoveIndex | LinkedList.java:244-276 | An index outside 0..size throws IllegalArgument. For `0 <= index < size` the block and node at `index` are deleted. Only node `index - 1` is written, so the removed node keeps its successor. `first` moves on only for index 0, and `last` becomes the predecessor only for the final index. For `0 < index == size` the list is unchanged. On an empty list, `remove(0)` fails with a null dereference. |
| LinkedLists.RemoveNode | LinkedList.java:201-235 | A null node throws NullPointer. If no block equals the node's block, the list is unchanged. Otherwise the first node whose block equals it is deleted from the blocks and from the spine, and the list stays valid. Only that node's predecessor is written. When that node was the tail its predecessor becomes `last`; otherwise `last` is unchanged. |
| LinkedLists.RemovedEnds | LinkedList.java:251-305 | After node `k` is unlinked, `first` is unchanged unless `k` is 0, when it moves to node 1 or becomes null (lines 251-256). `last` is unchanged unless `k` is final, when it becomes the predecessor or null (lines 254, 270-271 and 304-305). |
| LinkedLists.UnlinkedKeepsNext | LinkedList.java:268-274 | When a removal writes no old node except node `k - 1`, the unlinked node `k` is unchanged, successor included. A caller that still holds it can follow its `next` as in Java. |
| LinkedLists.IsLastIff | LinkedList.java:303 | In a valid list, node `k` is the node `last` references exactly when `k` is the final position. So the test `current == last` is the test for removing the tail. |
| LinkedLists.RemoveBlock | LinkedList.java:285-316 | An absent block throws IllegalArgument and changes nothing. Otherwise exactly the first occurrence is deleted from the blocks, and its node from the spine. Only the removed node's predecessor is written. When the removed node was `last` its predecessor becomes `last` (null if none is left); otherwise `last` is unchanged. |
| BlockSeq.DeleteMultiset | LinkedList.java:285-316 | A removal takes out exactly one copy of the removed block and leaves every other element. |
| BlockSeq.AppendThenRemoveValue | LinkedList.java:285-316 | Appending an absent block and then removing that block by value restores the old contents, and the block is absent again. |
| BlockSeq.DeleteInsert | LinkedList.java:89-125 | Removing at the index just inserted at gives back the old contents. |
| BlockSeq.InsertDelete | LinkedList.java:244-276 | Re-inserting a removed block at its old index gives back the old contents. |

## Left out

- `toString` (LinkedList.java:328-338) is left out. It only produces diagnostic
  text and relies on the block record's own `toString`.
- `iterator()` (LinkedList.java:321-323) is left out. `ListIterator` is not
  part of this model.
- `MemoryBlock` and `Node` are not part of this model beyond what the list
  uses:
  - a block is a value whose only operation is equality;
  - a node is a cell with a `block` and a `next` field.
- `size` is a Java `int`, but the model uses an unbounded integer. The
  wrap-around of `size++` past 2^31 - 1 nodes is not modelled. Every
  contract assumes the list stays below that length.
- A null `MemoryBlock` is not modelled: blocks are values, and none of them
  is null. Two behaviours of the source are therefore missing:
  - `add` stores a null block without complaint (LinkedList.java:94), and
    `getBlock` later returns it;
  - on a non-empty list, `indexOf(null)` throws NullPointerException at
    `block.equals` (LinkedList.java:186). So does `remove((MemoryBlock) null)`,
    through its call to `indexOf` (LinkedList.java:286). So does
    `remove(node)` for a node whose `block` is null (LinkedList.java:205).
- Complexity is not modelled. The source promises that insertion at index 0
  or at `size` costs O(1); contracts cannot state that. The model does
  implement those cases without a walk, as the source does.
- Sharing of nodes between lists is not modelled. Each list owns its arena,
  and a reference that `getFirst`, `getLast` or `getNode` returns is an index
  into that list's arena.
- Unlinked nodes stay in the arena, unreachable, in place of garbage
  collection.
