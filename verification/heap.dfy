/** The object heap the list's nodes live in, as an arena: a reference is an
    index into `seq<Node>`, `null` is `None`, and allocating a node appends a
    cell. A node that the list unlinks stays in the arena, unreachable, as it
    would until Java's collector reclaims it. */
module Heap {
  import opened Wrappers
  import opened MemoryBlocks

  type Ref = nat

  /** A node: the block it points to and its successor (`None` for null). */
  datatype Node = Node(block: MemoryBlock, next: Option<Ref>)

  /** `new Node(block)`: a fresh cell whose successor is null. */
  function Alloc(heap: seq<Node>, block: MemoryBlock): (h: seq<Node>)
    ensures |h| == |heap| + 1
    ensures forall q :: 0 <= q < |heap| ==> h[q] == heap[q]
    ensures h[|heap|] == Node(block, None)
    ensures KeepsBlocks(heap, h)
  {
    heap + [Node(block, None)]
  }

  /** The field write `r.next = next`. */
  function SetNext(heap: seq<Node>, r: Ref, next: Option<Ref>): (h: seq<Node>)
    requires r < |heap|
    ensures |h| == |heap|
    ensures h[r] == Node(heap[r].block, next)
    ensures forall q :: 0 <= q < |heap| && q != r ==> h[q] == heap[q]
    ensures KeepsBlocks(heap, h)
  {
    heap[r := heap[r].(next := next)]
  }

  /** `new Node(block)` linked in after `cur`: the fresh node first takes over
      `cur.next` and then becomes `cur.next`. */
  function SpliceAfter(heap: seq<Node>, cur: Ref, block: MemoryBlock): (h: seq<Node>)
    requires cur < |heap|
    ensures |h| == |heap| + 1
    ensures h[|heap|] == Node(block, heap[cur].next)
    ensures h[cur] == Node(heap[cur].block, Some(|heap|))
    ensures forall q :: 0 <= q < |heap| && q != cur ==> h[q] == heap[q]
    ensures KeepsBlocks(heap, h)
  {
    var n := |heap|;
    var grown := Alloc(heap, block);
    var linked := SetNext(grown, n, heap[cur].next);
    SetNext(linked, cur, Some(n))
  }

  /** Every cell of `heap` is still allocated in `heap'` and points to the same
      block: the list writes only `next` fields and never frees a node, so a
      reference handed out earlier keeps denoting the same block. */
  ghost predicate KeepsBlocks(heap: seq<Node>, heap': seq<Node>)
  {
    |heap| <= |heap'| && forall q :: 0 <= q < |heap| ==> heap'[q].block == heap[q].block
  }

  /** Every cell of `heap` other than `w` is unchanged in `heap'`, successor
      included: `w` is the one old node whose `next` an operation may write,
      `None` when it writes none. Cells past the end of `heap` are new. */
  ghost predicate WritesAtMost(heap: seq<Node>, heap': seq<Node>, w: Option<Ref>)
  {
    |heap| <= |heap'| && forall q :: 0 <= q < |heap| && w != Some(q) ==> heap'[q] == heap[q]
  }

  /** At most `fuel` references met by following `next` from `from`. */
  ghost function Walk(heap: seq<Node>, from: Option<Ref>, fuel: nat): (s: seq<Ref>)
    decreases fuel
  {
    if fuel == 0 then []
    else match from
      case None => []
      case Some(r) => if r < |heap| then [r] + Walk(heap, heap[r].next, fuel - 1) else []
  }

  /** `s` is the whole chain of nodes reachable from `from`: every reference is
      allocated, no node occurs twice, each node's successor is the next
      entry, and the last node's successor is null. */
  ghost predicate IsChain(heap: seq<Node>, from: Option<Ref>, s: seq<Ref>)
  {
    && (forall i :: 0 <= i < |s| ==> s[i] < |heap|)
    && Distinct(s)
    && from == (if |s| == 0 then None else Some(s[0]))
    && (forall i {:trigger heap[s[i]]} :: 0 <= i < |s| ==> heap[s[i]].next == Successor(s, i))
  }

  /** No reference occurs twice in `s`. */
  ghost predicate Distinct(s: seq<Ref>)
  {
    forall i, j :: 0 <= i < j < |s| ==> Apart(s, i, j)
  }

  /** Positions `i` and `j` of `s` hold different references. Distinctness is
      stated through this predicate so that the solver only compares the
      pairs of positions a proof names. */
  ghost predicate Apart(s: seq<Ref>, i: nat, j: nat)
    requires i < |s| && j < |s|
  {
    s[i] != s[j]
  }

  /** The reference after position `i` of `s`, null past the end. */
  ghost function Successor(s: seq<Ref>, i: nat): (next: Option<Ref>)
    requires i < |s|
  {
    if i + 1 < |s| then Some(s[i + 1]) else None
  }

  /** The blocks of the nodes of `s`, in order. */
  ghost function Contents(heap: seq<Node>, s: seq<Ref>): (c: seq<MemoryBlock>)
    requires forall i :: 0 <= i < |s| ==> s[i] < |heap|
    ensures |c| == |s|
  {
    seq(|s|, i requires 0 <= i < |s| => heap[s[i]].block)
  }

  /** The blocks past the head node are the tail of the blocks. */
  lemma ContentsTail(heap: seq<Node>, s: seq<Ref>)
    requires |s| > 0 && forall i :: 0 <= i < |s| ==> s[i] < |heap|
    ensures Contents(heap, s[1..]) == Contents(heap, s)[1..]
  {
    forall i | 0 <= i < |s| - 1
      ensures Contents(heap, s[1..])[i] == Contents(heap, s)[1..][i]
    {
      assert s[1..][i] == s[i + 1];
    }
  }

  /** Past its head node a chain is the chain of the head's successor. */
  lemma ChainTail(heap: seq<Node>, from: Option<Ref>, s: seq<Ref>)
    requires IsChain(heap, from, s) && |s| > 0
    ensures IsChain(heap, heap[s[0]].next, s[1..])
  {
    forall i | 0 <= i < |s| - 1
      ensures heap[s[1..][i]].next == Successor(s[1..], i)
    {
      assert s[1..][i] == s[i + 1];
      assert heap[s[i + 1]].next == Successor(s, i + 1);
    }
    forall i, j | 0 <= i < j < |s| - 1
      ensures Apart(s[1..], i, j)
    {
      assert Apart(s, i + 1, j + 1);
    }
  }

  /** A chain is what walking from its head finds: the walk, given enough
      fuel, stops exactly at the null successor of the chain's last node. */
  lemma {:induction false} ChainIsWalk(heap: seq<Node>, from: Option<Ref>, s: seq<Ref>, fuel: nat)
    requires IsChain(heap, from, s) && |s| <= fuel
    ensures Walk(heap, from, fuel) == s
    decreases |s|
  {
    if s != [] {
      ChainTail(heap, from, s);
      ChainIsWalk(heap, heap[s[0]].next, s[1..], fuel - 1);
    }
  }

  /** Linking a freshly allocated node `n` after the `k`th node of a chain
      (`k` >= 1) splices it in at position `k`; no block changes. */
  lemma LinkAfter(heap: seq<Node>, heap': seq<Node>, from: Option<Ref>, s: seq<Ref>, k: nat, n: Ref)
    requires IsChain(heap, from, s)
    requires 1 <= k <= |s| && n == |heap| && |heap'| == |heap| + 1
    requires heap'[n].next == (if k < |s| then Some(s[k]) else None)
    requires heap'[s[k - 1]] == Node(heap[s[k - 1]].block, Some(n))
    requires forall q :: 0 <= q < |heap| && q != s[k - 1] ==> heap'[q] == heap[q]
    ensures IsChain(heap', from, s[..k] + [n] + s[k..])
  {
    var s' := s[..k] + [n] + s[k..];
    assert forall i :: 0 <= i < |s'| ==> heap'[s'[i]].next == Successor(s', i) by {
      forall i | 0 <= i < |s'|
        ensures heap'[s'[i]].next == Successor(s', i)
      {
        LinkAfterAt(heap, heap', from, s, k, n, i);
      }
    }
    SpliceBounds(s, k, n, |heap'|);
    SpliceDistinct(s, k, n);
    assert s'[0] == s[0];
  }

  /** Splicing in a reference below `bound` keeps every reference below it. */
  lemma SpliceBounds(s: seq<Ref>, k: nat, n: Ref, bound: nat)
    requires k <= |s| && n < bound
    requires forall i :: 0 <= i < |s| ==> s[i] < bound
    ensures forall i :: 0 <= i < |s| + 1 ==> (s[..k] + [n] + s[k..])[i] < bound
  {
    var s' := s[..k] + [n] + s[k..];
    forall i | 0 <= i < |s'|
      ensures s'[i] < bound
    {
      if i < k {
        assert s'[i] == s[i];
      } else if i > k {
        assert s'[i] == s[i - 1];
      }
    }
  }

  /** Splicing a reference that `s` does not hold keeps the references distinct. */
  lemma SpliceDistinct(s: seq<Ref>, k: nat, n: Ref)
    requires k <= |s| && Distinct(s)
    requires forall i :: 0 <= i < |s| ==> s[i] != n
    ensures Distinct(s[..k] + [n] + s[k..])
  {
    var s' := s[..k] + [n] + s[k..];
    forall i, j | 0 <= i < j < |s'|
      ensures Apart(s', i, j)
    {
      if j < k {
        assert s'[i] == s[i] && s'[j] == s[j] && Apart(s, i, j);
      } else if j == k {
        assert s'[i] == s[i] && s'[j] == n;
      } else if i < k {
        assert s'[i] == s[i] && s'[j] == s[j - 1] && Apart(s, i, j - 1);
      } else if i == k {
        assert s'[i] == n && s'[j] == s[j - 1];
      } else {
        assert s'[i] == s[i - 1] && s'[j] == s[j - 1] && Apart(s, i - 1, j - 1);
      }
    }
  }

  /** `LinkAfter`'s splice, seen through the blocks: the new block lands at position `k`. */
  lemma LinkAfterContents(heap: seq<Node>, heap': seq<Node>, from: Option<Ref>, s: seq<Ref>, k: nat, n: Ref)
    requires IsChain(heap, from, s)
    requires 1 <= k <= |s| && n == |heap| && |heap'| == |heap| + 1
    requires heap'[s[k - 1]].block == heap[s[k - 1]].block
    requires forall q :: 0 <= q < |heap| && q != s[k - 1] ==> heap'[q] == heap[q]
    ensures Contents(heap', s[..k] + [n] + s[k..]) == Contents(heap, s)[..k] + [heap'[n].block] + Contents(heap, s)[k..]
  {
  }

  /** The successor of position `i` after `LinkAfter`'s splice. */
  lemma LinkAfterAt(heap: seq<Node>, heap': seq<Node>, from: Option<Ref>, s: seq<Ref>, k: nat, n: Ref, i: nat)
    requires IsChain(heap, from, s)
    requires 1 <= k <= |s| && n == |heap| && |heap'| == |heap| + 1
    requires heap'[n].next == (if k < |s| then Some(s[k]) else None)
    requires heap'[s[k - 1]] == Node(heap[s[k - 1]].block, Some(n))
    requires forall q :: 0 <= q < |heap| && q != s[k - 1] ==> heap'[q] == heap[q]
    requires i < |s| + 1
    ensures heap'[(s[..k] + [n] + s[k..])[i]].next == Successor(s[..k] + [n] + s[k..], i)
  {
    var s' := s[..k] + [n] + s[k..];
    if i < k - 1 {
      assert s'[i] == s[i] && s'[i + 1] == s[i + 1];
      assert Apart(s, i, k - 1);
      assert heap[s[i]].next == Successor(s, i);
    } else if i == k - 1 {
      assert s'[i] == s[k - 1] && s'[i + 1] == n;
    } else if i == k {
      assert s'[i] == n;
      if i + 1 < |s'| {
        assert s'[i + 1] == s[k];
      }
    } else {
      assert s'[i] == s[i - 1];
      assert Apart(s, k - 1, i - 1);
      assert heap[s[i - 1]].next == Successor(s, i - 1);
      if i + 1 < |s'| {
        assert s'[i + 1] == s[i];
      }
    }
  }

  /** Linking a freshly allocated node `n` in front of a chain makes it the
      new head. */
  lemma LinkFirst(heap: seq<Node>, heap': seq<Node>, from: Option<Ref>, s: seq<Ref>, n: Ref)
    requires IsChain(heap, from, s)
    requires n == |heap| && |heap'| == |heap| + 1
    requires forall q :: 0 <= q < |heap| ==> heap'[q] == heap[q]
    requires heap'[n].next == from
    ensures IsChain(heap', Some(n), [n] + s)
  {
    var s' := [n] + s;
    assert s[..0] + [n] + s[0..] == s';
    assert forall i :: 0 <= i < |s'| ==> heap'[s'[i]].next == Successor(s', i) by {
      forall i | 0 <= i < |s'|
        ensures heap'[s'[i]].next == Successor(s', i)
      {
        if i > 0 {
          assert s'[i] == s[i - 1];
          assert heap[s[i - 1]].next == Successor(s, i - 1);
          if i + 1 < |s'| {
            assert s'[i + 1] == s[i];
          }
        }
      }
    }
    SpliceBounds(s, 0, n, |heap'|);
    SpliceDistinct(s, 0, n);
  }

  /** `LinkFirst`'s new head, seen through the blocks: its block comes first
      and no other block changes. */
  lemma LinkFirstContents(heap: seq<Node>, heap': seq<Node>, s: seq<Ref>, n: Ref)
    requires forall i :: 0 <= i < |s| ==> s[i] < |heap|
    requires n == |heap| && |heap'| == |heap| + 1
    requires forall q :: 0 <= q < |heap| ==> heap'[q] == heap[q]
    ensures Contents(heap', [n] + s) == [heap'[n].block] + Contents(heap, s)
  {
    forall i | 0 <= i < |s|
      ensures Contents(heap', [n] + s)[i + 1] == Contents(heap, s)[i]
    {
      assert ([n] + s)[i + 1] == s[i];
    }
  }

  /** Pointing the successor of the `k - 1`th node past the `k`th node
      (`k` >= 1) deletes position `k` from the chain; no block changes. */
  lemma UnlinkAfter(heap: seq<Node>, heap': seq<Node>, from: Option<Ref>, s: seq<Ref>, k: nat)
    requires IsChain(heap, from, s)
    requires 1 <= k < |s| && |heap'| == |heap|
    requires heap'[s[k - 1]] == Node(heap[s[k - 1]].block, heap[s[k]].next)
    requires forall q :: 0 <= q < |heap| && q != s[k - 1] ==> heap'[q] == heap[q]
    ensures IsChain(heap', from, s[..k] + s[k + 1..])
  {
    var s' := s[..k] + s[k + 1..];
    forall i | 0 <= i < |s'|
      ensures heap'[s'[i]].next == Successor(s', i)
    {
      UnlinkAfterAt(heap, heap', from, s, k, i);
    }
    DeleteDistinct(s, k);
  }

  /** Dropping one reference keeps the others distinct. */
  lemma DeleteDistinct(s: seq<Ref>, k: nat)
    requires k < |s| && Distinct(s)
    ensures Distinct(s[..k] + s[k + 1..])
  {
    var s' := s[..k] + s[k + 1..];
    forall i, j | 0 <= i < j < |s'|
      ensures Apart(s', i, j)
    {
      if j < k {
        assert s'[i] == s[i] && s'[j] == s[j] && Apart(s, i, j);
      } else if i < k {
        assert s'[i] == s[i] && s'[j] == s[j + 1] && Apart(s, i, j + 1);
      } else {
        assert s'[i] == s[i + 1] && s'[j] == s[j + 1] && Apart(s, i + 1, j + 1);
      }
    }
  }

  /** `UnlinkAfter`'s relinking, seen through the blocks: position `k` is deleted. */
  lemma UnlinkAfterContents(heap: seq<Node>, heap': seq<Node>, from: Option<Ref>, s: seq<Ref>, k: nat)
    requires IsChain(heap, from, s)
    requires 1 <= k < |s| && |heap'| == |heap|
    requires heap'[s[k - 1]].block == heap[s[k - 1]].block
    requires forall q :: 0 <= q < |heap| && q != s[k - 1] ==> heap'[q] == heap[q]
    ensures Contents(heap', s[..k] + s[k + 1..]) == Contents(heap, s)[..k] + Contents(heap, s)[k + 1..]
  {
    var s' := s[..k] + s[k + 1..];
    var c := Contents(heap, s);
    forall i | 0 <= i < |s'|
      ensures Contents(heap', s')[i] == (c[..k] + c[k + 1..])[i]
    {
      if i < k {
        assert s'[i] == s[i];
      } else {
        assert s'[i] == s[i + 1];
      }
    }
  }

  /** The successor of position `i` after `UnlinkAfter`'s relinking. */
  lemma UnlinkAfterAt(heap: seq<Node>, heap': seq<Node>, from: Option<Ref>, s: seq<Ref>, k: nat, i: nat)
    requires IsChain(heap, from, s)
    requires 1 <= k < |s| && |heap'| == |heap|
    requires heap'[s[k - 1]] == Node(heap[s[k - 1]].block, heap[s[k]].next)
    requires forall q :: 0 <= q < |heap| && q != s[k - 1] ==> heap'[q] == heap[q]
    requires i < |s| - 1
    ensures heap'[(s[..k] + s[k + 1..])[i]].next == Successor(s[..k] + s[k + 1..], i)
  {
    var s' := s[..k] + s[k + 1..];
    if i < k - 1 {
      assert s'[i] == s[i] && s'[i + 1] == s[i + 1];
      assert Apart(s, i, k - 1);
      assert heap[s[i]].next == Successor(s, i);
    } else if i == k - 1 {
      assert s'[i] == s[k - 1];
      assert heap[s[k]].next == Successor(s, k);
      if i + 1 < |s'| {
        assert s'[i + 1] == s[k + 1];
      }
    } else {
      assert s'[i] == s[i + 1];
      assert Apart(s, k - 1, i + 1);
      assert heap[s[i + 1]].next == Successor(s, i + 1);
      if i + 1 < |s'| {
        assert s'[i + 1] == s[i + 2];
      }
    }
  }
}
