/** Reference operations on the abstract contents of a list: the sequence of
    blocks met when walking from the first node to the last. Every relinking
    operation of the linked list is specified against these. */
module BlockSeq {

  /** `b` placed so that it occupies position `i` afterwards. */
  function Insert<T>(s: seq<T>, i: nat, b: T): (r: seq<T>)
    requires i <= |s|
  {
    s[..i] + [b] + s[i..]
  }

  /** The element at position `i` taken out; the others keep their order. */
  function Delete<T>(s: seq<T>, i: nat): (r: seq<T>)
    requires i < |s|
  {
    s[..i] + s[i + 1..]
  }

  /** The least position holding `b`, or -1 when no position does. */
  function FirstIndex<T(==)>(s: seq<T>, b: T): (k: int)
    ensures -1 <= k < |s|
    ensures k == -1 <==> b !in s
    ensures k >= 0 ==> s[k] == b && forall j :: 0 <= j < k ==> s[j] != b
  {
    if s == [] then -1
    else if s[0] == b then 0
    else
      var k := FirstIndex(s[1..], b);
      if k == -1 then -1 else k + 1
  }

  /** The elements of `s` in the opposite order. */
  function Reverse<T>(s: seq<T>): (r: seq<T>)
  {
    if s == [] then [] else Reverse(s[1..]) + [s[0]]
  }

  /** Each of `bs`, in order, inserted at the front of `s`. */
  function PrependAll<T>(s: seq<T>, bs: seq<T>): (r: seq<T>)
    decreases |bs|
  {
    if bs == [] then s else PrependAll(Insert(s, 0, bs[0]), bs[1..])
  }

  /** Inserting at either end is prepending or appending. */
  lemma InsertEnds<T>(s: seq<T>, b: T)
    ensures Insert(s, 0, b) == [b] + s
    ensures Insert(s, |s|, b) == s + [b]
  {
  }

  /** Deleting what was just inserted gives back the original contents. */
  lemma DeleteInsert<T>(s: seq<T>, i: nat, b: T)
    requires i <= |s|
    ensures Delete(Insert(s, i, b), i) == s
  {
  }

  /** Re-inserting a deleted element at its old position restores the contents. */
  lemma InsertDelete<T>(s: seq<T>, i: nat)
    requires i < |s|
    ensures Insert(Delete(s, i), i, s[i]) == s
  {
  }

  /** Deleting position `i` removes exactly one copy of `s[i]` and no other element. */
  lemma DeleteMultiset<T>(s: seq<T>, i: nat)
    requires i < |s|
    ensures multiset(Delete(s, i)) + multiset{s[i]} == multiset(s)
  {
    calc {
      multiset(s);
      { assert s == s[..i] + [s[i]] + s[i + 1..]; }
      multiset(s[..i]) + multiset{s[i]} + multiset(s[i + 1..]);
    }
  }

  /** Appending a block that was absent and then removing that block by value
      restores the contents, after which the block is absent again. */
  lemma AppendThenRemoveValue<T>(s: seq<T>, b: T)
    requires b !in s
    ensures FirstIndex(s + [b], b) == |s|
    ensures Delete(s + [b], FirstIndex(s + [b], b)) == s
    ensures FirstIndex(Delete(s + [b], FirstIndex(s + [b], b)), b) == -1
  {
  }

  /** Reversing a sequence with one more element at the end puts that
      element first. */
  lemma {:induction false} ReverseSnoc<T>(s: seq<T>, x: T)
    ensures Reverse(s + [x]) == [x] + Reverse(s)
    decreases |s|
  {
    if s != [] {
      assert (s + [x])[1..] == s[1..] + [x];
      ReverseSnoc(s[1..], x);
    }
  }

  /** Putting element `i` in front of the reversed prefix before it gives the
      reversed prefix one element longer. */
  lemma ReversePrefixStep<T>(bs: seq<T>, i: nat, tail: seq<T>)
    requires i < |bs|
    ensures [bs[i]] + (Reverse(bs[..i]) + tail) == Reverse(bs[..i + 1]) + tail
  {
    assert bs[..i + 1] == bs[..i] + [bs[i]];
    ReverseSnoc(bs[..i], bs[i]);
  }

  /** Inserting blocks one after another at position 0 leaves them in reverse
      order of insertion, ahead of the original contents. */
  lemma {:induction false} PrependAllReverses<T>(s: seq<T>, bs: seq<T>)
    ensures PrependAll(s, bs) == Reverse(bs) + s
    decreases |bs|
  {
    if bs != [] {
      calc {
        PrependAll(s, bs);
        PrependAll(Insert(s, 0, bs[0]), bs[1..]);
        { PrependAllReverses(Insert(s, 0, bs[0]), bs[1..]); }
        Reverse(bs[1..]) + Insert(s, 0, bs[0]);
        { assert Insert(s, 0, bs[0]) == [bs[0]] + s; }
        Reverse(bs[1..]) + ([bs[0]] + s);
        Reverse(bs) + s;
      }
    }
  }
}
