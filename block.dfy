/** Blocks and block chains (src/blockchain/node/block/block.c).

    A chain is a doubly linked list of `Block` objects. Its meaning is a ghost
    sequence `s` of the blocks in head-to-tail order, tied to the pointers by
    `Linked(s)`: every `prev` and `next` field is exactly the neighbour in `s`,
    and the ends point to null. */
module Blocks {
  import opened Types

  class Block {
    const id: uint32
    var prev: Block?
    var next: Block?

    /** A block with the given id and no neighbours (`create_block`, and the
        successful case of `new_block`). */
    constructor (bid: uint32)
      ensures id == bid && prev == null && next == null
    {
      id := bid;
      prev := null;
      next := null;
    }
  }

  /** The ids of a chain, in chain order. */
  ghost function IdsOf(s: seq<Block>): (r: seq<uint32>)
    ensures |r| == |s|
    ensures forall i :: 0 <= i < |s| ==> r[i] == s[i].id
  {
    seq(|s|, i requires 0 <= i < |s| => s[i].id)
  }

  /** The pointers of the blocks in `s` form exactly the list `s`: forward
      links go to the successor, backward links to the predecessor, and both
      ends are null. */
  ghost predicate Linked(s: seq<Block>)
    reads s
  {
    && (forall i {:trigger s[i].next} :: 0 <= i < |s| ==> s[i].next == Nth(s, i + 1))
    && (forall i {:trigger s[i].prev} :: 0 <= i < |s| ==> s[i].prev == Prior(s, i))
  }

  ghost predicate Distinct<T>(s: seq<T>)
  {
    forall i, j :: 0 <= i < j < |s| ==> s[i] != s[j]
  }

  /** In a sequence without repetitions an element's first occurrence is its
      only one. */
  lemma FirstIndexOfDistinct<T>(s: seq<T>, i: nat)
    requires Distinct(s) && i < |s|
    ensures FirstIndex(s, s[i]) == i
  {
  }

  lemma IdsOfConcat(a: seq<Block>, b: seq<Block>)
    ensures IdsOf(a + b) == IdsOf(a) + IdsOf(b)
  {
  }

  /** A well-formed chain: linked and without repeated blocks. */
  ghost predicate Chain(s: seq<Block>)
    reads s
  {
    Linked(s) && Distinct(s)
  }

  /** The `next` entry that follows position `i - 1` of a chain: the block at
      position `i`, or null past the end. */
  ghost function Nth(s: seq<Block>, i: nat): (b: Block?)
    ensures b == null <==> i >= |s|
    ensures b != null ==> b == s[i]
  {
    if i < |s| then s[i] else null
  }

  /** The block just before position `k` of a chain, or null at its start. */
  ghost function Prior(s: seq<Block>, k: nat): (b: Block?)
    requires k <= |s|
    ensures b == null <==> k == 0
    ensures b != null ==> b == s[k - 1]
  {
    if k == 0 then null else s[k - 1]
  }

  /** Linked chains are acyclic: following `next` never comes back to a block
      already visited, because the walk must end at a null `next`. */
  lemma {:induction false} LinkedIsAcyclic(s: seq<Block>, i: nat, j: nat)
    requires Linked(s)
    requires i < j < |s|
    ensures s[i] != s[j]
    decreases |s| - j
  {
    assert s[i].next == s[i + 1];
    if j < |s| - 1 {
      LinkedIsAcyclic(s, i + 1, j + 1);
      assert s[j].next == s[j + 1];
    }
  }

  lemma LinkedIsChain(s: seq<Block>)
    requires Linked(s)
    ensures Chain(s)
  {
    forall i, j | 0 <= i < j < |s| ensures s[i] != s[j] {
      LinkedIsAcyclic(s, i, j);
    }
  }

  /** Two linked chains joined by a forward and a backward link form one
      linked chain. */
  lemma LinkedJoin(a: seq<Block>, b: seq<Block>)
    requires a != [] && b != []
    requires a[0].prev == null && b[|b| - 1].next == null
    requires forall i {:trigger a[i].next} :: 0 <= i < |a| - 1 ==> a[i].next == a[i + 1]
    requires forall i {:trigger a[i].prev} :: 0 < i < |a| ==> a[i].prev == a[i - 1]
    requires forall i {:trigger b[i].next} :: 0 <= i < |b| - 1 ==> b[i].next == b[i + 1]
    requires forall i {:trigger b[i].prev} :: 0 < i < |b| ==> b[i].prev == b[i - 1]
    requires a[|a| - 1].next == b[0] && b[0].prev == a[|a| - 1]
    ensures Linked(a + b)
  {
    var s := a + b;
    forall i | 0 <= i < |s| - 1 ensures s[i].next == s[i + 1] {
      if i < |a| - 1 {
        assert a[i].next == a[i + 1];
      } else if i >= |a| {
        assert b[i - |a|].next == b[i - |a| + 1];
      }
    }
    forall i | 0 < i < |s| ensures s[i].prev == s[i - 1] {
      if i < |a| {
        assert a[i].prev == a[i - 1];
      } else if i > |a| {
        assert b[i - |a|].prev == b[i - |a| - 1];
      }
    }
  }

  /** `new_block`: either the allocation fails and null is returned, or a
      fresh block with the given id and no neighbours. */
  method NewBlock(bid: uint32) returns (block: Block?)
    ensures block != null ==> fresh(block) && block.id == bid && block.prev == null && block.next == null
  {
    if * {
      block := null;
    } else {
      block := new Block(bid);
    }
  }

  /** `clone_block`: appends a fresh copy of `block` after `prev`; on an
      allocation failure nothing is changed and null is returned. */
  method CloneBlock(block: Block, prev: Block) returns (clone: Block?)
    modifies prev
    ensures clone == null ==> prev.next == old(prev.next)
    ensures clone != null ==> fresh(clone) && clone.id == block.id
    ensures clone != null ==> prev.next == clone && clone.prev == prev && clone.next == null
    ensures prev.prev == old(prev.prev)
  {
    clone := NewBlock(block.id);
    if clone == null {
      return null;
    }
    prev.next := clone;
    clone.prev := prev;
  }

  /** `clone_chain`: a deep copy of the non-empty chain `src` (the source
      dereferences null on an empty one). On success the copy is a fresh,
      well-formed chain with the same ids in the same order; on an allocation
      failure null is returned. The source chain is never written: the method
      has no `modifies` clause. */
  method CloneChain(head: Block, ghost src: seq<Block>) returns (r: Block?, ghost copy: seq<Block>)
    requires Linked(src) && src != [] && src[0] == head
    ensures r != null ==> copy != [] && r == copy[0] && Chain(copy)
    ensures r != null ==> IdsOf(copy) == IdsOf(src)
    ensures forall i :: 0 <= i < |copy| ==> fresh(copy[i])
  {
    var cloneDummyHead := new Block(0);
    var clone: Block := cloneDummyHead;
    var cur: Block? := head;
    ghost var i := 0;
    copy := [];
    while cur != null
      invariant Linked(src)
      invariant 0 <= i <= |src| && |copy| == i
      invariant cur == Nth(src, i)
      invariant Distinct(copy) && cloneDummyHead !in copy
      invariant clone == (if i == 0 then cloneDummyHead else copy[i - 1])
      invariant cloneDummyHead.next == Nth(copy, 0)
      invariant i > 0 ==> copy[0].prev == cloneDummyHead && copy[i - 1].next == null
      invariant forall j {:trigger copy[j].next} :: 0 <= j < i - 1 ==> copy[j].next == copy[j + 1]
      invariant forall j {:trigger copy[j].prev} :: 0 < j < i ==> copy[j].prev == copy[j - 1]
      invariant forall j :: 0 <= j < i ==> fresh(copy[j]) && copy[j].id == src[j].id
      decreases |src| - i
    {
      var c := CloneBlock(cur, clone);
      if c == null {
        return null, [];
      }
      clone := c;
      copy := copy + [c];
      cur := cur.next;
      i := i + 1;
    }
    r := cloneDummyHead.next;
    r.prev := null;
    LinkedIsChain(copy);
  }

  /** The unlink step of `rmv_block`: the neighbours of `block` are linked to
      each other, which drops `block` from its list. Only the `next` of the
      predecessor and the `prev` of the successor change. */
  method Unlink(block: Block)
    requires block.prev != null && block.next != null
    requires block.prev != block && block.next != block
    modifies block.prev`next, block.next`prev
    ensures old(block.prev).next == old(block.next)
    ensures old(block.next).prev == old(block.prev)
  {
    block.prev.next := block.next;
    block.next.prev := block.prev;
  }

  /** What the links of a chain `s` look like once the block at position `k`
      has been unlinked and the ends reset: links away from `k` as before,
      the neighbours of `k` joined, and null outer links on the new ends.
      Together these make the shorter sequence a linked chain. */
  lemma LinkedAfterRemoval(s: seq<Block>, k: nat)
    requires |s| >= 2 && k < |s|
    requires forall i {:trigger s[i].next} :: 0 <= i < |s| - 1 && i != k - 1 && i != k ==> s[i].next == s[i + 1]
    requires forall i {:trigger s[i].prev} :: 0 < i < |s| && i != k && i != k + 1 ==> s[i].prev == s[i - 1]
    requires 0 < k < |s| - 1 ==> s[k - 1].next == s[k + 1] && s[k + 1].prev == s[k - 1]
    requires k == 0 ==> s[1].prev == null
    requires k == |s| - 1 ==> s[k - 1].next == null
    requires k != 0 ==> s[0].prev == null
    requires k != |s| - 1 ==> s[|s| - 1].next == null
    ensures Linked(Without(s, k))
  {
    var r := Without(s, k);
    forall i | 0 <= i < |r| - 1 ensures r[i].next == r[i + 1] {
      if i < k - 1 {
        assert s[i].next == s[i + 1];
      } else if i == k - 1 {
        assert s[k - 1].next == s[k + 1];
      } else {
        assert s[i + 1].next == s[i + 2];
      }
    }
    forall i | 0 < i < |r| ensures r[i].prev == r[i - 1] {
      if i < k {
        assert s[i].prev == s[i - 1];
      } else if i == k {
        assert s[k + 1].prev == s[k - 1];
      } else {
        assert s[i + 1].prev == s[i];
      }
    }
  }

  /** `get_chain_tail`: follows `next` from a non-null head to the last block. */
  method GetChainTail(head: Block, ghost chain: seq<Block>) returns (tail: Block)
    requires Linked(chain) && chain != [] && chain[0] == head
    ensures tail == chain[|chain| - 1]
  {
    tail := head;
    ghost var i := 0;
    while tail.next != null
      invariant Linked(chain)
      invariant 0 <= i < |chain| && tail == chain[i]
      decreases |chain| - i
    {
      tail := tail.next;
      i := i + 1;
    }
  }
}
