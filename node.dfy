/** Nodes (src/blockchain/node/node.c): one block chain plus the cursor
    `sync_tail` on the last synchronised block.

    The ghost field `blocks` is the chain in head-to-tail order and `synced`
    the number of leading blocks covered by the cursor; `Valid()` ties the
    pointer fields to them. `prev` and `next` link the node into the registry
    and are not part of a node's own invariant, so relinking nodes never
    disturbs it. */
module Nodes {
  import opened Types
  import opened Blocks
  import Ledger

  class Node {
    const id: uint32
    var head: Block?
    var syncTail: Block?
    var tail: Block?
    var prev: Node?
    var next: Node?
    ghost var blocks: seq<Block>
    ghost var synced: nat
    /** The blocks this node owns or has owned; removed blocks stay here, so
        the footprint only grows. */
    ghost var Repr: set<Block>

    ghost predicate Valid()
      reads this`head, this`syncTail, this`tail, this`blocks, this`synced, this`Repr, Repr
    {
      && (forall i :: 0 <= i < |blocks| ==> blocks[i] in Repr)
      && Linked(blocks)
      && head == Nth(blocks, 0)
      && tail == Prior(blocks, |blocks|)
      && synced <= |blocks|
      && syncTail == Prior(blocks, synced)
    }

    /** The node as a value: id, chain ids and cursor position. */
    ghost function View(): (v: Ledger.NodeView)
      reads this`blocks, this`synced
    {
      Ledger.NodeView(id, IdsOf(blocks), synced)
    }

    /** `create_node`, and the successful case of `new_node`: an empty node
        without cursor and outside any registry. */
    constructor (nid: uint32)
      ensures Valid() && fresh(Repr)
      ensures id == nid && blocks == [] && synced == 0
      ensures prev == null && next == null
    {
      id := nid;
      head, syncTail, tail := null, null, null;
      prev, next := null, null;
      blocks, synced := [], 0;
      Repr := {};
    }

    /** `node_is_empty`. */
    function IsEmpty(): (r: bool)
      reads this`head, this`syncTail, this`tail, this`blocks, this`synced, this`Repr, Repr
      requires Valid()
      ensures r <==> blocks == []
    {
      head == null
    }

    /** A chain of two or more blocks has distinct ends. */
    lemma EndsDiffer()
      requires Valid()
      ensures |blocks| >= 2 ==> head != tail
    {
      if |blocks| >= 2 {
        LinkedIsAcyclic(blocks, 0, |blocks| - 1);
      }
    }

    /** Only the last block of a chain is its tail. */
    lemma TailIsLast()
      requires Valid()
      ensures forall i :: 0 <= i < |blocks| - 1 ==> blocks[i] != tail
    {
      forall i | 0 <= i < |blocks| - 1 ensures blocks[i] != tail {
        LinkedIsAcyclic(blocks, i, |blocks| - 1);
      }
    }

    /** `node_has_one_block`: head and tail coincide, which for a chain without
        repeated blocks means at most one block. */
    function HasOneBlock(): (r: bool)
      reads this`head, this`syncTail, this`tail, this`blocks, this`synced, this`Repr, Repr
      requires Valid()
      ensures r <==> |blocks| <= 1
    {
      EndsDiffer();
      head == tail
    }

    /** `node_is_synced`: the cursor is on the tail, that is, every block is
        synchronised (an empty node, with no cursor and no tail, is synced). */
    function IsSynced(): (r: bool)
      reads this`head, this`syncTail, this`tail, this`blocks, this`synced, this`Repr, Repr
      requires Valid()
      ensures r <==> synced == |blocks|
      ensures r <==> Ledger.LocallySynced(View())
    {
      assert 0 < synced < |blocks| ==> blocks[synced - 1].next != null && blocks[|blocks| - 1].next == null;
      syncTail == tail
    }

    /** `get_post_sync_chain`: the first block after the cursor, or the head
        when there is no cursor; null when nothing is pending. */
    function PostSyncChain(): (r: Block?)
      reads this`head, this`syncTail, this`tail, this`blocks, this`synced, this`Repr, Repr
      requires Valid()
      ensures r == Nth(blocks, synced)
    {
      if syncTail != null then syncTail.next else head
    }

    /** `declare_node_synced`: the cursor moves to the tail. */
    method DeclareSynced()
      requires Valid()
      modifies this`syncTail, this`synced
      ensures Valid() && blocks == old(blocks)
      ensures synced == |blocks| && syncTail == tail
    {
      syncTail := tail;
      synced := |blocks|;
    }

    /** The cursor write of `update_sync_state_teardown`: `sync_tail` is set
        to the block at position `n - 1`. */
    method SetSyncTail(b: Block, ghost n: nat)
      requires Valid() && 0 < n <= |blocks| && b == blocks[n - 1]
      modifies this`syncTail, this`synced
      ensures Valid() && blocks == old(blocks) && synced == n
    {
      syncTail := b;
      synced := n;
    }

    /** The cursor is cleared (the loop body of `desync`). */
    method ClearCursor()
      requires Valid()
      modifies this`syncTail, this`synced
      ensures Valid() && synced == 0 && blocks == old(blocks)
    {
      syncTail := null;
      synced := 0;
    }

    /** `get_block_from_id`: the first block in chain order with that id, or
        null when there is none. */
    method GetBlockFromId(bid: uint32) returns (block: Block?)
      requires Valid()
      ensures block == Nth(blocks, FirstIndex(IdsOf(blocks), bid))
    {
      block := head;
      ghost var i := 0;
      while block != null && block.id != bid
        invariant Valid()
        invariant 0 <= i <= |blocks| && block == Nth(blocks, i)
        invariant forall j :: 0 <= j < i ==> blocks[j].id != bid
        decreases |blocks| - i
      {
        block := block.next;
        i := i + 1;
      }
    }

    /** `has_block_with_id`. */
    method HasBlockWithId(bid: uint32) returns (r: bool)
      requires Valid()
      ensures r <==> bid in IdsOf(blocks)
    {
      var block := GetBlockFromId(bid);
      r := block != null;
    }

    /** `add_block`: appends a detached block (as `new_block` makes it) at the
        tail; the first block of an empty node becomes head and tail. The
        cursor does not move. */
    method AddBlock(block: Block)
      requires Valid() && block !in Repr
      requires block.prev == null && block.next == null
      modifies this`head, this`tail, this`blocks, this`Repr, Repr, block
      ensures Valid()
      ensures blocks == old(blocks) + [block] && Repr == old(Repr) + {block}
      ensures synced == old(synced) && syncTail == old(syncTail)
    {
      TailIsLast();
      if IsEmpty() {
        head, tail := block, block;
      } else {
        block.prev := tail;
        tail.next := block;
        tail := block;
      }
      blocks := blocks + [block];
      Repr := Repr + {block};
    }

    /** `add_chain`: splices a whole non-empty chain on after the tail; the
        chain's last block becomes the tail. The cursor does not move. */
    method AddChain(chainHead: Block, ghost chain: seq<Block>)
      requires Valid()
      requires Linked(chain) && chain != [] && chain[0] == chainHead
      requires forall i :: 0 <= i < |chain| ==> chain[i] !in Repr
      modifies this`head, this`tail, this`blocks, this`Repr, Repr, chainHead
      ensures Valid()
      ensures blocks == old(blocks) + chain
      ensures Repr == old(Repr) + set b | b in chain
      ensures synced == old(synced) && syncTail == old(syncTail)
    {
      TailIsLast();
      ghost var b0 := blocks;
      var chainTail := GetChainTail(chainHead, chain);
      forall i | 0 < i < |chain| ensures chain[i] != chainHead {
        LinkedIsAcyclic(chain, 0, i);
      }
      if IsEmpty() {
        head, tail := chainHead, chainTail;
        blocks := chain;
      } else {
        chainHead.prev := tail;
        tail.next := chainHead;
        tail := chainTail;
        LinkedJoin(b0, chain);
        blocks := b0 + chain;
      }
      Repr := Repr + set b | b in chain;
    }

    /** `attach_dummy_head_and_tail`: sentinel blocks are linked in before
        the head and after the tail; the node's own fields are not touched. */
    method AttachSentinels(dummyHead: Block, dummyTail: Block)
      requires head != null && tail != null
      requires dummyHead != tail && dummyTail != head
      modifies head`prev, dummyHead`next, tail`next, dummyTail`prev
      ensures head.prev == dummyHead && dummyHead.next == head
      ensures tail.next == dummyTail && dummyTail.prev == tail
    {
      head.prev := dummyHead;
      dummyHead.next := head;
      tail.next := dummyTail;
      dummyTail.prev := tail;
    }

    /** `detach_dummy_head_and_tail`: the blocks after the head sentinel and
        before the tail sentinel become head and tail with null outer links,
        and a cursor left on the head sentinel becomes absent. */
    method DetachSentinels(dummyHead: Block, dummyTail: Block)
      requires dummyHead.next != null && dummyTail.prev != null
      requires dummyHead.next != dummyTail && dummyTail.prev != dummyHead
      modifies this`head, this`tail, this`syncTail, dummyHead.next`prev, dummyTail.prev`next
      ensures head == old(dummyHead.next) && head.prev == null
      ensures tail == old(dummyTail.prev) && tail.next == null
      ensures syncTail == (if old(syncTail) == dummyHead then null else old(syncTail))
    {
      head := dummyHead.next;
      head.prev := null;
      if dummyHead == syncTail {
        syncTail := null;
      }
      tail := dummyTail.prev;
      tail.next := null;
    }

    /** `rmv_block`: unlinks `block` from the chain. Removing the only block
        (or calling on an empty node) resets head, tail and cursor. Otherwise
        sentinel blocks are attached before the head and after the tail so
        that the unlink needs no null test; a cursor on the removed block
        moves to its predecessor, and a cursor left on the head sentinel
        becomes absent when the sentinels are detached. */
    method RmvBlock(block: Block)
      requires Valid() && (block in blocks || blocks == [])
      modifies this`head, this`tail, this`syncTail, this`blocks, this`synced, Repr
      ensures Valid() && Repr == old(Repr)
      ensures old(blocks) == [] ==> blocks == [] && synced == 0
      ensures old(blocks) != [] ==>
        var k := FirstIndex(old(blocks), block);
        && blocks == Without(old(blocks), k)
        && synced == (if old(synced) > k then old(synced) - 1 else old(synced))
    {
      if IsEmpty() || HasOneBlock() {
        head, tail, syncTail := null, null, null;
        blocks, synced := [], 0;
        return;
      }
      RemoveAt(block, FirstIndex(blocks, block));
    }

    /** `rmv_block` on a chain of two or more blocks, with `block` at
        position `k`. */
    method RemoveAt(block: Block, ghost k: nat)
      requires Valid() && |blocks| >= 2 && k < |blocks| && blocks[k] == block
      modifies this`head, this`tail, this`syncTail, this`blocks, this`synced, Repr
      ensures Valid() && Repr == old(Repr)
      ensures blocks == Without(old(blocks), k)
      ensures synced == (if old(synced) > k then old(synced) - 1 else old(synced))
    {
      ghost var b0 := blocks;
      ghost var s0 := synced;
      CursorOnBlock(b0, k, s0);
      ghost var st0 := syncTail;
      Unsplice(block, b0, k);
      blocks, synced := Without(b0, k), if s0 > k then s0 - 1 else s0;
      ValidAfterRemoval(b0, k, s0, st0);
    }

    /** The invariant after `rmv_block`, from the pointer facts `Unsplice`
        leaves and the cursor position the old invariant gave. */
    lemma ValidAfterRemoval(b0: seq<Block>, k: nat, s0: nat, st0: Block?)
      requires k < |b0| && s0 <= |b0| && |b0| >= 2
      requires forall i :: 0 <= i < |b0| ==> b0[i] in Repr
      requires st0 == (if s0 == 0 then null else b0[s0 - 1])
      requires st0 == b0[k] <==> s0 == k + 1
      requires Linked(Without(b0, k))
      requires head == Without(b0, k)[0] && tail == Without(b0, k)[|b0| - 2]
      requires syncTail == (if st0 == b0[k] then (if k == 0 then null else b0[k - 1]) else st0)
      requires blocks == Without(b0, k) && synced == (if s0 > k then s0 - 1 else s0)
      ensures Valid()
    {
      CursorAfterRemoval(b0, k, s0);
    }

    /** The part of `rmv_block` for a chain `s` of two or more blocks:
        sentinels are attached, `block` (at position `k`) is unlinked, a
        cursor on it moves to its predecessor, and the sentinels are detached
        again. `s0` is the number of blocks the cursor covers. */
    method Unsplice(block: Block, ghost s: seq<Block>, ghost k: nat)
      requires Linked(s) && |s| >= 2 && k < |s| && s[k] == block
      requires head == s[0] && tail == s[|s| - 1]
      modifies this`head, this`tail, this`syncTail, s
      ensures Linked(Without(s, k))
      ensures head == Without(s, k)[0] && tail == Without(s, k)[|s| - 2]
      ensures syncTail == (if old(syncTail) == block then (if k == 0 then null else s[k - 1]) else old(syncTail))
    {
      LinkedIsChain(s);
      ghost var n := |s|;
      ghost var cursor := syncTail;
      var dummyHead := new Block(0);
      var dummyTail := new Block(0);
      assert cursor != dummyHead && dummyHead !in s && dummyTail !in s;
      AttachSentinels(dummyHead, dummyTail);
      ghost var pred := if k == 0 then dummyHead else s[k - 1];
      ghost var succ := if k == n - 1 then dummyTail else s[k + 1];
      assert block.prev == pred && block.next == succ;
      Unlink(block);
      if syncTail == block {
        syncTail := block.prev;
      }
      DetachSentinels(dummyHead, dummyTail);
      LinkedAfterRemoval(s, k);
    }
  }

  /** In a linked chain the cursor covering `s0` blocks sits on the block at
      position `k` exactly when `s0 == k + 1`. */
  lemma CursorOnBlock(s: seq<Block>, k: nat, s0: nat)
    requires Linked(s) && k < |s| && s0 <= |s|
    ensures (s0 > 0 && s[s0 - 1] == s[k]) <==> s0 == k + 1
  {
    if s0 > k + 1 {
      LinkedIsAcyclic(s, k, s0 - 1);
    } else if 0 < s0 <= k {
      LinkedIsAcyclic(s, s0 - 1, k);
    }
  }

  /** Where the cursor of `rmv_block` ends up: removing position `k` from a
      chain whose cursor covers `s0` blocks leaves the cursor on the same
      block, or on the removed block's predecessor when the cursor was on the
      removed block, and in both cases it covers the right prefix of the
      shorter chain. */
  lemma CursorAfterRemoval(b0: seq<Block>, k: nat, s0: nat)
    requires k < |b0| && s0 <= |b0|
    ensures var nb := Without(b0, k);
      var s1 := if s0 > k then s0 - 1 else s0;
      s1 <= |nb| &&
      (if s0 == k + 1 then (if k == 0 then null else b0[k - 1]) else (if s0 == 0 then null else b0[s0 - 1]))
        == (if s1 == 0 then null else nb[s1 - 1])
  {
  }

  /** `new_node`: either the allocation fails and null is returned, or a fresh
      empty node. */
  method NewNode(nid: uint32) returns (node: Node?)
    ensures node != null ==> fresh(node) && fresh(node.Repr) && node.Valid()
    ensures node != null ==> node.id == nid && node.blocks == [] && node.synced == 0
    ensures node != null ==> node.prev == null && node.next == null
  {
    if * {
      node := null;
    } else {
      node := new Node(nid);
    }
  }
}
