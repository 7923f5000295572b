/** The singly-linked list of memory blocks (LinkedList.java): cached `first`
    and `last` references, a `size` counter, and nodes in an arena heap.

    The class's fields become the datatype `LinkedList`; each method becomes a
    method that takes the list and returns the list as it is afterwards (or
    the exception it throws), so a contract relates the state before and after
    without heap framing. `Valid` is the shape invariant every method keeps,
    and `Blocks` is the abstract contents every method is specified against. */
module LinkedLists {
  import opened Wrappers
  import opened MemoryBlocks
  import opened Heap
  import opened BlockSeq

  /** The exceptions the list throws: IllegalArgumentException and
      NullPointerException (explicit, or from dereferencing null). */
  datatype Error = IllegalArgument | NullPointer

  datatype LinkedList = LinkedList(first: Option<Ref>, last: Option<Ref>, size: int, heap: seq<Node>)

  /** The nodes met by following `next` from `first`, at most `size` of them. */
  ghost function Spine(l: LinkedList): (s: seq<Ref>)
  {
    Walk(l.heap, l.first, if l.size < 0 then 0 else l.size)
  }

  /** The shape invariant: walking from `first` visits exactly `size` distinct
      nodes and stops at a null successor; `last` is the final node reached;
      both cached references are null exactly when `size` is 0. */
  ghost predicate Valid(l: LinkedList)
  {
    && IsChain(l.heap, l.first, Spine(l))
    && |Spine(l)| == l.size
    && l.last == (if l.size == 0 then None else Some(Spine(l)[l.size - 1]))
  }

  /** The blocks of the list, first to last. */
  ghost function Blocks(l: LinkedList): (bs: seq<MemoryBlock>)
    requires Valid(l)
    ensures |bs| == l.size
  {
    Contents(l.heap, Spine(l))
  }

  /** The node whose `next` a change at position `k` writes: node `k - 1`,
      or none when the change is at the head and writes only `first`. */
  ghost function Predecessor(l: LinkedList, k: int): (w: Option<Ref>)
    requires Valid(l) && 0 <= k <= l.size
    ensures w.Some? ==> w.value < |l.heap|
  {
    if k == 0 then None else Some(Spine(l)[k - 1])
  }

  /** A list whose references form the chain `s`, with `size` and `last`
      matching it, is valid and `s` is its spine. */
  lemma Establish(l: LinkedList, s: seq<Ref>)
    requires IsChain(l.heap, l.first, s) && l.size == |s|
    requires l.last == (if |s| == 0 then None else Some(s[|s| - 1]))
    ensures Valid(l) && Spine(l) == s
  {
    ChainIsWalk(l.heap, l.first, s, |s|);
  }

  /** In a valid list, node `k` is the one `last` references exactly when it is
      the final node; no other node can be `last`, since no node occurs twice. */
  lemma IsLastIff(l: LinkedList, k: int)
    requires Valid(l) && 0 <= k < l.size
    ensures Some(Spine(l)[k]) == l.last <==> k == l.size - 1
  {
    if k != l.size - 1 {
      assert Apart(Spine(l), k, l.size - 1);
    }
  }

  /** Once node `k` is unlinked, the cached references are the ends of the
      remaining chain: `first` moves on only when the head goes, and `last`
      falls back to the predecessor only when the tail goes. */
  lemma RemovedEnds(l: LinkedList, r: LinkedList, k: int)
    requires Valid(l) && Valid(r) && 0 <= k < l.size
    requires Spine(r) == Delete(Spine(l), k)
    ensures r.first == (if k > 0 then l.first else if l.size == 1 then None else Some(Spine(l)[1]))
    ensures r.last == (if k < l.size - 1 then l.last else if l.size == 1 then None else Some(Spine(l)[l.size - 2]))
  {
    var sp := Spine(l);
    if 0 < k {
      assert Spine(r)[0] == sp[0];
    } else if l.size > 1 {
      assert Spine(r)[0] == sp[1];
    }
    if k < l.size - 1 {
      assert Spine(r)[r.size - 1] == sp[l.size - 1];
    } else if l.size > 1 {
      assert Spine(r)[r.size - 1] == sp[l.size - 2];
    }
  }

  /** `new LinkedList()`: no nodes, both references null. */
  function Empty(): (l: LinkedList)
    ensures Valid(l) && Blocks(l) == []
    ensures l.first == None && l.last == None && l.size == 0
  {
    LinkedList(None, None, 0, [])
  }

  /** `getFirst()`: null exactly when the list is empty, else the node of block 0. */
  function GetFirst(l: LinkedList): (r: Option<Ref>)
    requires Valid(l)
    ensures r == None <==> Blocks(l) == []
    ensures r.Some? ==> r.value < |l.heap| && l.heap[r.value].block == Blocks(l)[0]
    ensures r == (if l.size == 0 then None else Some(Spine(l)[0]))
  {
    l.first
  }

  /** `getLast()`: null exactly when the list is empty, else the node of the
      final block, whose successor is null. */
  function GetLast(l: LinkedList): (r: Option<Ref>)
    requires Valid(l)
    ensures r == None <==> Blocks(l) == []
    ensures r.Some? ==> r.value < |l.heap| && l.heap[r.value].next == None
    ensures r.Some? ==> l.heap[r.value].block == Blocks(l)[|Blocks(l)| - 1]
    ensures r == (if l.size == 0 then None else Some(Spine(l)[l.size - 1]))
  {
    l.last
  }

  /** `getSize()`: the number of blocks reachable from `first`. */
  function GetSize(l: LinkedList): (n: int)
    requires Valid(l)
    ensures n == |Blocks(l)|
  {
    l.size
  }

  /** `getNode(index)`: the node at `index`; null for `index == size`, which
      the guard admits but the walk never reaches. */
  method GetNode(l: LinkedList, index: int) returns (r: Result<Option<Ref>, Error>)
    requires Valid(l)
    ensures index < 0 || index > l.size ==> r == Failure(IllegalArgument)
    ensures 0 <= index < l.size ==> r == Success(Some(Spine(l)[index]))
    ensures 0 <= index < l.size ==> l.heap[r.value.value].block == Blocks(l)[index]
    ensures index == l.size ==> r == Success(None)
  {
    if index < 0 || index > l.size {
      return Failure(IllegalArgument);
    }
    ghost var sp := Spine(l);
    var current := l.first;
    var counter := 0;
    while current.Some?
      invariant 0 <= counter <= index && counter <= |sp|
      invariant current == (if counter < |sp| then Some(sp[counter]) else None)
      decreases |sp| - counter
    {
      if index == counter {
        return Success(current);
      }
      current := l.heap[current.value].next;
      counter := counter + 1;
    }
    return Success(None);
  }

  /** The O(1) front insertion of `add`: into an empty list the new node
      becomes both `first` and `last`; otherwise it is linked before `first`. */
  function LinkFirstNode(l: LinkedList, block: MemoryBlock): (r: LinkedList)
    requires Valid(l)
    ensures Valid(r) && Blocks(r) == [block] + Blocks(l)
    ensures r.first.Some? && r.heap[r.first.value].block == block
    ensures Spine(r) == [|l.heap|] + Spine(l) && (l.size > 0 ==> r.last == l.last)
    ensures |r.heap| == |l.heap| + 1 && KeepsBlocks(l.heap, r.heap)
    ensures WritesAtMost(l.heap, r.heap, None)
  {
    var newNode := |l.heap|;
    var heap := Alloc(l.heap, block);
    if l.size == 0 then
      LinkFirst(l.heap, heap, l.first, Spine(l), newNode);
      LinkFirstContents(l.heap, heap, Spine(l), newNode);
      Establish(LinkedList(Some(newNode), Some(newNode), l.size + 1, heap), [newNode] + Spine(l));
      LinkedList(Some(newNode), Some(newNode), l.size + 1, heap)
    else
      var heap' := SetNext(heap, newNode, l.first);
      LinkFirst(l.heap, heap', l.first, Spine(l), newNode);
      LinkFirstContents(l.heap, heap', Spine(l), newNode);
      Establish(LinkedList(Some(newNode), l.last, l.size + 1, heap'), [newNode] + Spine(l));
      LinkedList(Some(newNode), l.last, l.size + 1, heap')
  }

  /** The O(1) back insertion of `add`: the new node is linked after `last`
      and becomes `last`. */
  function LinkLastNode(l: LinkedList, block: MemoryBlock): (r: LinkedList)
    requires Valid(l) && l.size > 0
    ensures Valid(r) && Blocks(r) == Blocks(l) + [block]
    ensures r.last.Some? && r.heap[r.last.value].block == block
    ensures Spine(r) == Spine(l) + [|l.heap|] && r.first == l.first
    ensures |r.heap| == |l.heap| + 1 && KeepsBlocks(l.heap, r.heap)
    ensures WritesAtMost(l.heap, r.heap, l.last)
  {
    var newNode := |l.heap|;
    var heap := SetNext(Alloc(l.heap, block), l.last.value, Some(newNode));
    var sp := Spine(l);
    LinkAfter(l.heap, heap, l.first, sp, l.size, newNode);
    LinkAfterContents(l.heap, heap, l.first, sp, l.size, newNode);
    Establish(LinkedList(l.first, Some(newNode), l.size + 1, heap), sp[..l.size] + [newNode] + sp[l.size..]);
    assert sp[..l.size] == sp && sp[l.size..] == [];
    assert Blocks(l)[..l.size] == Blocks(l) && Blocks(l)[l.size..] == [];
    LinkedList(l.first, Some(newNode), l.size + 1, heap)
  }

  /** The interior insertion of `add`: `current` is node `index - 1`; the new
      node takes over its successor and becomes its successor. */
  function LinkAfterNode(l: LinkedList, current: Ref, index: int, block: MemoryBlock): (r: LinkedList)
    requires Valid(l) && 1 <= index < l.size && current == Spine(l)[index - 1]
    ensures Valid(r) && Blocks(r) == Insert(Blocks(l), index, block)
    ensures Spine(r) == Insert(Spine(l), index, |l.heap|) && r.first == l.first && r.last == l.last
    ensures |r.heap| == |l.heap| + 1 && KeepsBlocks(l.heap, r.heap)
    ensures WritesAtMost(l.heap, r.heap, Some(current))
  {
    var newNode := |l.heap|;
    var heap := SpliceAfter(l.heap, current, block);
    var sp := Spine(l);
    assert l.heap[current].next == Some(sp[index]) by {
      assert l.heap[sp[index - 1]].next == Successor(sp, index - 1);
    }
    var spliced: seq<Ref> := sp[..index] + [newNode] + sp[index..];
    assert |spliced| == l.size + 1 && spliced[l.size] == sp[l.size - 1];
    assert l.last == Some(spliced[l.size]);
    LinkAfter(l.heap, heap, l.first, sp, index, newNode);
    LinkAfterContents(l.heap, heap, l.first, sp, index, newNode);
    Establish(LinkedList(l.first, l.last, l.size + 1, heap), spliced);
    LinkedList(l.first, l.last, l.size + 1, heap)
  }

  /** `add(index, block)`: a new node for `block` ends up at position `index`;
      any index outside 0..size throws before anything changes. */
  method Add(l: LinkedList, index: int, block: MemoryBlock) returns (r: Result<LinkedList, Error>)
    requires Valid(l)
    ensures index < 0 || index > l.size ==> r == Failure(IllegalArgument)
    ensures 0 <= index <= l.size ==> r.Success? && Valid(r.value)
    ensures 0 <= index <= l.size ==> Blocks(r.value) == Insert(Blocks(l), index, block)
    ensures 0 <= index <= l.size ==> Spine(r.value) == Insert(Spine(l), index, |l.heap|)
    ensures 0 <= index <= l.size ==> |r.value.heap| == |l.heap| + 1 && KeepsBlocks(l.heap, r.value.heap)
    ensures 0 <= index <= l.size ==> WritesAtMost(l.heap, r.value.heap, Predecessor(l, index))
    ensures 0 < index <= l.size ==> r.value.first == l.first
    ensures 0 <= index < l.size ==> r.value.last == l.last
  {
    if index < 0 || index > l.size {
      return Failure(IllegalArgument);
    }
    ghost var sp := Spine(l);
    if l.size == 0 || index == 0 {
      InsertEnds(sp, |l.heap|);
      InsertEnds(Blocks(l), block);
      return Success(LinkFirstNode(l, block));
    }
    if index == l.size {
      InsertEnds(sp, |l.heap|);
      InsertEnds(Blocks(l), block);
      return Success(LinkLastNode(l, block));
    }
    var current := NodeBefore(l, index);
    return Success(LinkAfterNode(l, current, index, block));
  }

  /** The walk of `add` for an interior index: `counter` starts at 1 and
      `current` at `first`, and they advance together until `counter` reaches
      `index`, which leaves `current` at node `index - 1`. */
  method NodeBefore(l: LinkedList, index: int) returns (current: Ref)
    requires Valid(l) && 1 <= index < l.size
    ensures current < |l.heap| && l.heap[current].next == Some(Spine(l)[index])
    ensures current == Spine(l)[index - 1]
  {
    ghost var sp := Spine(l);
    var node := l.first;
    var counter := 1;
    while node.Some?
      invariant 1 <= counter <= index
      invariant node == Some(sp[counter - 1])
      decreases index - counter
    {
      if index == counter {
        assert l.heap[sp[index - 1]].next == Successor(sp, index - 1);
        return node.value;
      }
      node := l.heap[node.value].next;
      counter := counter + 1;
    }
    assert false;
  }

  /** `getBlock(index)`: the block at `index`. The guard rejects negative
      indices, indices past `size`, and every index of an empty list; it lets
      `index == size` through, and that walk ends without a block (null). */
  method GetBlock(l: LinkedList, index: int) returns (r: Result<Option<MemoryBlock>, Error>)
    requires Valid(l)
    ensures index < 0 || index > l.size || l.size == 0 ==> r == Failure(IllegalArgument)
    ensures 0 <= index < l.size ==> r == Success(Some(Blocks(l)[index]))
    ensures 0 < l.size && index == l.size ==> r == Success(None)
  {
    if index < 0 || index > l.size || l.size == 0 {
      return Failure(IllegalArgument);
    }
    ghost var sp := Spine(l);
    var current := l.first;
    var counter := 0;
    while current.Some?
      invariant 0 <= counter <= index && counter <= |sp|
      invariant current == (if counter < |sp| then Some(sp[counter]) else None)
      decreases |sp| - counter
    {
      if index == counter {
        return Success(Some(l.heap[current.value].block));
      }
      current := l.heap[current.value].next;
      counter := counter + 1;
    }
    return Success(None);
  }

  /** `indexOf(block)`: the least position whose block equals `block`, or -1. */
  method IndexOf(l: LinkedList, block: MemoryBlock) returns (i: int)
    requires Valid(l)
    ensures i == FirstIndex(Blocks(l), block)
  {
    ghost var sp := Spine(l);
    var current := l.first;
    var counter := 0;
    while current.Some?
      invariant 0 <= counter <= |sp|
      invariant current == (if counter < |sp| then Some(sp[counter]) else None)
      invariant forall j :: 0 <= j < counter ==> Blocks(l)[j] != block
      decreases |sp| - counter
    {
      if block == l.heap[current.value].block {
        assert Blocks(l)[counter] == block;
        return counter;
      }
      current := l.heap[current.value].next;
      counter := counter + 1;
    }
    return -1;
  }

  /** The head removal shared by the three `remove` methods: `first` moves to
      its successor, and `last` is cleared when that leaves the list empty. */
  function UnlinkFirstNode(l: LinkedList): (r: LinkedList)
    requires Valid(l) && l.size > 0
    ensures Valid(r) && Blocks(r) == Delete(Blocks(l), 0)
    ensures Spine(r) == Delete(Spine(l), 0) && r.heap == l.heap
  {
    var sp := Spine(l);
    var first := l.heap[l.first.value].next;
    var last := if first == None then None else l.last;
    ChainTail(l.heap, l.first, sp);
    Establish(LinkedList(first, last, l.size - 1, l.heap), sp[1..]);
    ContentsTail(l.heap, sp);
    LinkedList(first, last, l.size - 1, l.heap)
  }

  /** The non-head removal shared by the three `remove` methods: `prev` is
      node `index - 1` and `current` node `index`. At the tail `prev.next`
      becomes null and `prev` becomes `last`; elsewhere `prev.next` skips to
      `current.next`. */
  function UnlinkNextNode(l: LinkedList, prev: Ref, current: Ref, atTail: bool, index: int): (r: LinkedList)
    requires Valid(l) && 1 <= index < l.size
    requires prev == Spine(l)[index - 1] && current == Spine(l)[index]
    requires atTail <==> index == l.size - 1
    ensures Valid(r) && Blocks(r) == Delete(Blocks(l), index)
    ensures Spine(r) == Delete(Spine(l), index) && r.first == l.first
    ensures atTail ==> r.last == Some(prev)
    ensures !atTail ==> r.last == l.last
    ensures |r.heap| == |l.heap| && KeepsBlocks(l.heap, r.heap)
    ensures WritesAtMost(l.heap, r.heap, Some(prev))
  {
    var sp := Spine(l);
    assert l.heap[current].next == Successor(sp, index);
    if atTail then
      var heap := SetNext(l.heap, prev, None);
      UnlinkAfter(l.heap, heap, l.first, sp, index);
      UnlinkAfterContents(l.heap, heap, l.first, sp, index);
      Establish(LinkedList(l.first, Some(prev), l.size - 1, heap), sp[..index] + sp[index + 1..]);
      LinkedList(l.first, Some(prev), l.size - 1, heap)
    else
      var heap := SetNext(l.heap, prev, l.heap[current].next);
      UnlinkAfter(l.heap, heap, l.first, sp, index);
      UnlinkAfterContents(l.heap, heap, l.first, sp, index);
      Establish(LinkedList(l.first, l.last, l.size - 1, heap), sp[..index] + sp[index + 1..]);
      LinkedList(l.first, l.last, l.size - 1, heap)
  }

  /** The positional removal that `remove(int)` and `remove(Node)` share once
      the index is known. Index 0 dereferences `first`, so on an empty list
      it throws NullPointerException; `index == size` walks off the end and
      changes nothing. */
  method Unlink(l: LinkedList, index: int) returns (r: Result<LinkedList, Error>)
    requires Valid(l) && 0 <= index <= l.size
    ensures index == 0 && l.size == 0 ==> r == Failure(NullPointer)
    ensures index < l.size ==> r.Success? && Valid(r.value)
    ensures index < l.size ==> Blocks(r.value) == Delete(Blocks(l), index)
    ensures index < l.size ==> Spine(r.value) == Delete(Spine(l), index)
    ensures index < l.size ==> |r.value.heap| == |l.heap| && KeepsBlocks(l.heap, r.value.heap)
    ensures index < l.size ==> WritesAtMost(l.heap, r.value.heap, Predecessor(l, index))
    ensures index < l.size ==>
              r.value.first == (if index > 0 then l.first else if l.size == 1 then None else Some(Spine(l)[1]))
    ensures index < l.size ==>
              r.value.last == (if index < l.size - 1 then l.last else if l.size == 1 then None else Some(Spine(l)[l.size - 2]))
    ensures 0 < index && index == l.size ==> r == Success(l)
  {
    var current := l.first;
    var prev: Option<Ref> := None;
    if index == 0 {
      if current.None? {
        return Failure(NullPointer);
      }
      r := Success(UnlinkFirstNode(l));
      RemovedEnds(l, r.value, 0);
      return;
    }
    ghost var sp := Spine(l);
    var counter := 0;
    while current.Some? && counter != index
      invariant 0 <= counter <= index && counter <= |sp|
      invariant current == (if counter < |sp| then Some(sp[counter]) else None)
      invariant counter > 0 ==> prev == Some(sp[counter - 1])
      decreases index - counter
    {
      prev := current;
      current := l.heap[current.value].next;
      counter := counter + 1;
    }
    if current.None? {
      return Success(l);
    }
    r := Success(UnlinkNextNode(l, prev.value, current.value, index == l.size - 1, index));
    RemovedEnds(l, r.value, index);
  }

  /** A node that a removal unlinks keeps its own successor: only the node
      before it is written, so a caller still holding it can follow `next`. */
  lemma UnlinkedKeepsNext(l: LinkedList, r: LinkedList, k: int)
    requires Valid(l) && 0 <= k < l.size
    requires WritesAtMost(l.heap, r.heap, Predecessor(l, k))
    ensures r.heap[Spine(l)[k]] == l.heap[Spine(l)[k]]
  {
    if k > 0 {
      assert Apart(Spine(l), k - 1, k);
    }
  }

  /** `remove(int index)`: an index outside 0..size throws; otherwise the
      removal of `Unlink`, including its no-op at `index == size` and its
      null dereference on an empty list. */
  method RemoveIndex(l: LinkedList, index: int) returns (r: Result<LinkedList, Error>)
    requires Valid(l)
    ensures index < 0 || index > l.size ==> r == Failure(IllegalArgument)
    ensures 0 <= index < l.size ==> r.Success? && Valid(r.value)
    ensures 0 <= index < l.size ==> Blocks(r.value) == Delete(Blocks(l), index)
    ensures 0 <= index < l.size ==> Spine(r.value) == Delete(Spine(l), index)
    ensures 0 <= index < l.size ==> |r.value.heap| == |l.heap| && KeepsBlocks(l.heap, r.value.heap)
    ensures 0 <= index < l.size ==> WritesAtMost(l.heap, r.value.heap, Predecessor(l, index))
    ensures 0 <= index < l.size ==>
              r.value.first == (if index > 0 then l.first else if l.size == 1 then None else Some(Spine(l)[1]))
    ensures 0 <= index < l.size ==>
              r.value.last == (if index < l.size - 1 then l.last else if l.size == 1 then None else Some(Spine(l)[l.size - 2]))
    ensures 0 < index && index == l.size ==> r == Success(l)
    ensures index == 0 && l.size == 0 ==> r == Failure(NullPointer)
  {
    if index < 0 || index > l.size {
      return Failure(IllegalArgument);
    }
    r := Unlink(l, index);
  }

  /** `remove(Node node)`: a null node throws; otherwise the node located is
      the first whose block equals `node.block`, which need not be `node`
      itself; when no block equals it nothing changes. */
  method RemoveNode(l: LinkedList, node: Option<Node>) returns (r: Result<LinkedList, Error>)
    requires Valid(l)
    ensures node == None ==> r == Failure(NullPointer)
    ensures node.Some? && node.value.block !in Blocks(l) ==> r == Success(l)
    ensures node.Some? && node.value.block in Blocks(l) ==> r.Success? && Valid(r.value)
    ensures node.Some? && node.value.block in Blocks(l) ==>
              Blocks(r.value) == Delete(Blocks(l), FirstIndex(Blocks(l), node.value.block))
    ensures node.Some? && node.value.block in Blocks(l) ==>
              Spine(r.value) == Delete(Spine(l), FirstIndex(Blocks(l), node.value.block))
    ensures node.Some? && node.value.block in Blocks(l) ==>
              |r.value.heap| == |l.heap| && KeepsBlocks(l.heap, r.value.heap)
    ensures node.Some? && node.value.block in Blocks(l) ==>
              WritesAtMost(l.heap, r.value.heap, Predecessor(l, FirstIndex(Blocks(l), node.value.block)))
    ensures node.Some? && node.value.block in Blocks(l) && FirstIndex(Blocks(l), node.value.block) < l.size - 1 ==>
              r.value.last == l.last
    ensures node.Some? && node.value.block in Blocks(l) && FirstIndex(Blocks(l), node.value.block) == l.size - 1 ==>
              r.value.last == (if l.size == 1 then None else Some(Spine(l)[l.size - 2]))
  {
    if node.None? {
      return Failure(NullPointer);
    }
    var indexOfNode := IndexOf(l, node.value.block);
    if indexOfNode == -1 {
      return Success(l);
    }
    r := Unlink(l, indexOfNode);
  }

  /** `remove(MemoryBlock block)`: throws when no block equals `block`;
      otherwise removes the first node whose block equals it. */
  method RemoveBlock(l: LinkedList, block: MemoryBlock) returns (r: Result<LinkedList, Error>)
    requires Valid(l)
    ensures block !in Blocks(l) ==> r == Failure(IllegalArgument)
    ensures block in Blocks(l) ==> r.Success? && Valid(r.value)
    ensures block in Blocks(l) ==> Blocks(r.value) == Delete(Blocks(l), FirstIndex(Blocks(l), block))
    ensures block in Blocks(l) ==> Spine(r.value) == Delete(Spine(l), FirstIndex(Blocks(l), block))
    ensures block in Blocks(l) ==> |r.value.heap| == |l.heap| && KeepsBlocks(l.heap, r.value.heap)
    ensures block in Blocks(l) ==> WritesAtMost(l.heap, r.value.heap, Predecessor(l, FirstIndex(Blocks(l), block)))
    ensures block in Blocks(l) && FirstIndex(Blocks(l), block) < l.size - 1 ==> r.value.last == l.last
    ensures block in Blocks(l) && FirstIndex(Blocks(l), block) == l.size - 1 ==>
              r.value.last == (if l.size == 1 then None else Some(Spine(l)[l.size - 2]))
  {
    var found := IndexOf(l, block);
    if found == -1 {
      return Failure(IllegalArgument);
    }
    ghost var sp := Spine(l);
    ghost var bs := Blocks(l);
    var current := l.first;
    var prev: Option<Ref> := None;
    var counter := 0;
    if block == l.heap[l.first.value].block {
      assert bs[0] == block;
      r := Success(UnlinkFirstNode(l));
      RemovedEnds(l, r.value, 0);
      return;
    }
    assert bs[0] != block && bs[found] == block;
    while current.Some?
      invariant 0 <= counter <= found
      invariant current == Some(sp[counter])
      invariant counter > 0 ==> prev == Some(sp[counter - 1])
      decreases found - counter
    {
      assert bs[counter] == l.heap[current.value].block;
      if block == l.heap[current.value].block {
        assert counter == found;
        IsLastIff(l, counter);
        var l' := UnlinkNextNode(l, prev.value, current.value, current == l.last, counter);
        assert Valid(l') && Blocks(l') == Delete(bs, found);
        RemovedEnds(l, l', found);
        return Success(l');
      }
      assert counter < found;
      prev := current;
      current := l.heap[current.value].next;
      counter := counter + 1;
    }
    assert false;
  }

  /** `addFirst(block)` is `add(0, block)`: `block` becomes block 0. */
  method AddFirst(l: LinkedList, block: MemoryBlock) returns (r: LinkedList)
    requires Valid(l)
    ensures Valid(r) && Blocks(r) == [block] + Blocks(l)
    ensures r.first.Some? && r.heap[r.first.value].block == block
    ensures Spine(r) == [|l.heap|] + Spine(l) && (l.size > 0 ==> r.last == l.last)
    ensures |r.heap| == |l.heap| + 1 && KeepsBlocks(l.heap, r.heap)
    ensures WritesAtMost(l.heap, r.heap, None)
  {
    var res := Add(l, 0, block);
    r := res.value;
    InsertEnds(Spine(l), |l.heap|);
    InsertEnds(Blocks(l), block);
    assert Spine(r)[0] == |l.heap| && Blocks(r)[0] == block;
  }

  /** `addFirst` applied to each of `bs` in turn: the blocks end up ahead of
      the old contents in the reverse of the order they were added in. */
  method AddAllFirst(l: LinkedList, bs: seq<MemoryBlock>) returns (r: LinkedList)
    requires Valid(l)
    ensures Valid(r) && Blocks(r) == Reverse(bs) + Blocks(l)
    ensures Blocks(r) == PrependAll(Blocks(l), bs)
  {
    r := l;
    var i := 0;
    while i < |bs|
      invariant 0 <= i <= |bs|
      invariant Valid(r) && Blocks(r) == Reverse(bs[..i]) + Blocks(l)
    {
      ReversePrefixStep(bs, i, Blocks(l));
      ghost var before := Blocks(r);
      r := AddFirst(r, bs[i]);
      assert Blocks(r) == [bs[i]] + before;
      i := i + 1;
    }
    assert bs[..i] == bs;
    PrependAllReverses(Blocks(l), bs);
  }

  /** `addLast(block)` is `add(size, block)`: `block` becomes the last block. */
  method AddLast(l: LinkedList, block: MemoryBlock) returns (r: LinkedList)
    requires Valid(l)
    ensures Valid(r) && Blocks(r) == Blocks(l) + [block]
    ensures r.last.Some? && r.heap[r.last.value].block == block
    ensures Spine(r) == Spine(l) + [|l.heap|] && (l.size > 0 ==> r.first == l.first)
    ensures |r.heap| == |l.heap| + 1 && KeepsBlocks(l.heap, r.heap)
    ensures WritesAtMost(l.heap, r.heap, l.last)
  {
    var res := Add(l, l.size, block);
    r := res.value;
    InsertEnds(Spine(l), |l.heap|);
    InsertEnds(Blocks(l), block);
    assert Spine(r)[r.size - 1] == |l.heap| && Blocks(r)[r.size - 1] == block;
  }
}
