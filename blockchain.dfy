/** The registry (src/blockchain/blockchain.c): the program-wide doubly linked
    list of nodes with its node count, and the two synchronisation passes.

    The static `blockchain` record becomes one `Registry` object. Its ghost
    field `nodes` is the list in head-to-tail order, tied to the `prev`/`next`
    fields of the nodes by `NodesLinked`; `Repr` holds every block any of the
    nodes owns. The meaning of the registry is `View()`, a sequence of
    `Ledger.NodeView` values, and the synchronisation passes are proved to
    act on it as `Ledger.Broadcast` and `Ledger.Advance` say. */
module Blockchain {
  import opened Types
  import opened Blocks
  import opened Nodes
  import Ledger

  /** The `prev`/`next` fields of the nodes in `s` form exactly the list `s`. */
  ghost predicate NodesLinked(s: seq<Node>)
    reads s`prev, s`next
  {
    && (forall i {:trigger s[i].next} :: 0 <= i < |s| ==> s[i].next == NthNode(s, i + 1))
    && (forall i {:trigger s[i].prev} :: 0 <= i < |s| ==> s[i].prev == PriorNode(s, i))
  }

  /** The node just before position `k`, or null at the start. */
  ghost function PriorNode(s: seq<Node>, k: nat): (n: Node?)
    requires k <= |s|
    ensures n == null <==> k == 0
    ensures n != null ==> n == s[k - 1]
  {
    if k == 0 then null else s[k - 1]
  }

  /** The node at position `i`, or null past the end. */
  ghost function NthNode(s: seq<Node>, i: nat): (n: Node?)
    ensures n == null <==> i >= |s|
    ensures n != null ==> n == s[i]
  {
    if i < |s| then s[i] else null
  }

  /** The node ids in registry order. */
  ghost function NodeIds(s: seq<Node>): (r: seq<uint32>)
    ensures |r| == |s|
    ensures forall i :: 0 <= i < |s| ==> r[i] == s[i].id
  {
    seq(|s|, i requires 0 <= i < |s| => s[i].id)
  }

  /** The value of every node, in registry order. */
  ghost function ViewsOf(s: seq<Node>): (vs: seq<Ledger.NodeView>)
    reads s`blocks, s`synced
    ensures |vs| == |s|
    ensures forall i :: 0 <= i < |s| ==> vs[i] == s[i].View()
    decreases |s|
  {
    if s == [] then [] else ViewsOf(s[..|s| - 1]) + [s[|s| - 1].View()]
  }

  /** A linked node list never visits a node twice. */
  lemma {:induction false} NodesLinkedIsAcyclic(s: seq<Node>, i: nat, j: nat)
    requires NodesLinked(s)
    requires i < j < |s|
    ensures s[i] != s[j]
    decreases |s| - j
  {
    assert s[i].next == s[i + 1];
    if j < |s| - 1 {
      NodesLinkedIsAcyclic(s, i + 1, j + 1);
      assert s[j].next == s[j + 1];
    }
  }

  lemma NodesLinkedIsDistinct(s: seq<Node>)
    requires NodesLinked(s)
    ensures Distinct(s)
  {
    forall i, j | 0 <= i < j < |s| ensures s[i] != s[j] {
      NodesLinkedIsAcyclic(s, i, j);
    }
  }

  /** `pos` gives back the position of every node of `s`; so no node occurs
      twice in `s`. */
  ghost predicate Indexed(s: seq<Node>, pos: map<Node, nat>)
  {
    forall i :: 0 <= i < |s| ==> s[i] in pos && pos[s[i]] == i
  }

  /** Every node of a linked list has one position. */
  lemma NodesLinkedIsIndexed(s: seq<Node>) returns (pos: map<Node, nat>)
    requires NodesLinked(s)
    ensures Indexed(s, pos)
  {
    NodesLinkedIsDistinct(s);
    pos := map i | 0 <= i < |s| :: s[i] := i;
  }

  /** The last node of a linked list occurs nowhere else in it. */
  lemma LastNodeIsUnique(s: seq<Node>)
    requires NodesLinked(s) && s != []
    ensures forall i :: 0 <= i < |s| - 1 ==> s[i] != s[|s| - 1]
  {
    forall i | 0 <= i < |s| - 1 ensures s[i] != s[|s| - 1] {
      NodesLinkedIsAcyclic(s, i, |s| - 1);
    }
  }

  /** The node-list counterpart of `Blocks.LinkedAfterRemoval`: after the
      node at position `k` has been unlinked and the ends reset, the shorter
      list is linked. */
  lemma NodesLinkedAfterRemoval(s: seq<Node>, k: nat)
    requires |s| >= 2 && k < |s|
    requires forall i {:trigger s[i].next} :: 0 <= i < |s| - 1 && i != k - 1 && i != k ==> s[i].next == s[i + 1]
    requires forall i {:trigger s[i].prev} :: 0 < i < |s| && i != k && i != k + 1 ==> s[i].prev == s[i - 1]
    requires 0 < k < |s| - 1 ==> s[k - 1].next == s[k + 1] && s[k + 1].prev == s[k - 1]
    requires k == 0 ==> s[1].prev == null
    requires k == |s| - 1 ==> s[k - 1].next == null
    requires k != 0 ==> s[0].prev == null
    requires k != |s| - 1 ==> s[|s| - 1].next == null
    ensures NodesLinked(Without(s, k))
  {
    var r := Without(s, k);
    forall i | 0 <= i < |r| - 1 ensures r[i].next == r[i + 1] {
      if i < k - 1 {
        assert s[i].next == s[i + 1];
      } else if i == k - 1 {
        assert s[k - 1].next == s[k + 1];
      } else {
        assert s[i + 1].next == s[i + 2];
      }
    }
    forall i | 0 < i < |r| ensures r[i].prev == r[i - 1] {
      if i < k {
        assert s[i].prev == s[i - 1];
      } else if i == k {
        assert s[k + 1].prev == s[k - 1];
      } else {
        assert s[i + 1].prev == s[i];
      }
    }
  }

  /** A linked node list with one more node linked in after its last node. */
  lemma NodesLinkedAppend(s: seq<Node>, n: Node)
    requires s != [] && s[0].prev == null
    requires forall i {:trigger s[i].next} :: 0 <= i < |s| - 1 ==> s[i].next == s[i + 1]
    requires forall i {:trigger s[i].prev} :: 0 < i < |s| ==> s[i].prev == s[i - 1]
    requires s[|s| - 1].next == n && n.prev == s[|s| - 1] && n.next == null
    ensures NodesLinked(s + [n])
  {
    var r := s + [n];
    forall i | 0 <= i < |r| - 1 ensures r[i].next == r[i + 1] {
      if i < |s| - 1 {
        assert s[i].next == s[i + 1];
      }
    }
    forall i | 0 < i < |r| ensures r[i].prev == r[i - 1] {
      if i < |s| {
        assert s[i].prev == s[i - 1];
      }
    }
  }

  /** The unlink step of `rmv_node`: the neighbours of `node` are linked to
      each other. */
  method UnlinkNode(node: Node)
    requires node.prev != null && node.next != null
    requires node.prev != node && node.next != node
    modifies node.prev`next, node.next`prev
    ensures old(node.prev).next == old(node.next)
    ensures old(node.next).prev == old(node.prev)
  {
    node.prev.next := node.next;
    node.next.prev := node.prev;
  }

  /** Exit status of `synchronize` (`EXIT_SUCCESS` or `EXIT_FAILURE`). */
  datatype Status = Success | Failure

  /** `put_block_in_dummy_sync_node`: a fresh copy of `block` is appended to
      the aggregation node unless a block with its id is already there. On an
      allocation failure nothing changes and `Failure` is returned. */
  method PutBlockInDummy(block: Block, dummy: Node) returns (status: Status)
    requires dummy.Valid()
    modifies dummy`head, dummy`tail, dummy`blocks, dummy`Repr, dummy.Repr
    ensures dummy.Valid() && fresh(dummy.Repr - old(dummy.Repr))
    ensures dummy.synced == old(dummy.synced)
    ensures status == Success ==> IdsOf(dummy.blocks) == Ledger.AddNew(old(IdsOf(dummy.blocks)), block.id)
    ensures status == Failure ==> dummy.blocks == old(dummy.blocks)
  {
    var present := dummy.HasBlockWithId(block.id);
    if !present {
      var clone := NewBlock(block.id);
      if clone == null {
        return Failure;
      }
      dummy.AddBlock(clone);
      IdsOfConcat(old(dummy.blocks), [clone]);
    }
    return Success;
  }

  /** `put_node_content_in_dummy_sync_node`: the post-sync blocks of `node`
      are merged, in chain order, into the aggregation node and removed from
      `node`. On an allocation failure the blocks handled so far stay moved
      and `Failure` is returned. */
  method PutNodeContent(node: Node, dummy: Node) returns (status: Status)
    requires node.Valid() && dummy.Valid() && node != dummy && node.Repr !! dummy.Repr
    modifies node`head, node`tail, node`syncTail, node`blocks, node`synced, node.Repr
    modifies dummy`head, dummy`tail, dummy`blocks, dummy`Repr, dummy.Repr
    ensures node.Valid() && dummy.Valid() && node.Repr == old(node.Repr)
    ensures fresh(dummy.Repr - old(dummy.Repr)) && dummy.synced == old(dummy.synced)
    ensures status == Success ==> node.View() == Ledger.Strip(old(node.View()))
    ensures status == Success ==>
      IdsOf(dummy.blocks) == Ledger.AppendNew(old(IdsOf(dummy.blocks)), Ledger.Pending(old(node.View())))
  {
    ghost var b0, s0, d0 := node.blocks, node.synced, IdsOf(dummy.blocks);
    ghost var n;
    status, n := DrainLoop(node, dummy, b0, s0, d0);
    if status == Success {
      DrainedAll(node.id, b0, s0, d0, n);
    }
  }

  /** The loop of `put_node_content_in_dummy_sync_node`: rounds of
      `DrainStep` until no pending block is left or an allocation fails. */
  method DrainLoop(node: Node, dummy: Node, ghost b0: seq<Block>, ghost s0: nat, ghost d0: seq<uint32>) returns (status: Status, ghost n: nat)
    requires node.Valid() && dummy.Valid() && node != dummy && node.Repr !! dummy.Repr
    requires node.blocks == b0 && node.synced == s0 && IdsOf(dummy.blocks) == d0
    modifies node`head, node`tail, node`syncTail, node`blocks, node`synced, node.Repr
    modifies dummy`head, dummy`tail, dummy`blocks, dummy`Repr, dummy.Repr
    ensures node.Valid() && dummy.Valid() && node.Repr == old(node.Repr)
    ensures fresh(dummy.Repr - old(dummy.Repr)) && dummy.synced == old(dummy.synced) && node.synced == s0
    ensures status == Success ==> s0 + n == |b0| && node.blocks == DrainedBlocks(b0, s0, n) && IdsOf(dummy.blocks) == DrainedIds(b0, s0, d0, n)
  {
    var post := node.PostSyncChain();
    n := 0;
    status := Success;
    while post != null
      invariant node.Valid() && dummy.Valid() && node.Repr == old(node.Repr)
      invariant node.Repr !! dummy.Repr && fresh(dummy.Repr - old(dummy.Repr))
      invariant dummy.synced == old(dummy.synced) && node.synced == s0
      invariant s0 + n <= |b0| && node.blocks == DrainedBlocks(b0, s0, n) && IdsOf(dummy.blocks) == DrainedIds(b0, s0, d0, n)
      invariant post == Nth(node.blocks, s0)
      decreases |b0| - n
    {
      status, post := DrainStep(node, dummy, b0, s0, d0, n);
      if status != Success {
        return;
      }
      n := n + 1;
    }
  }

  /** Round `n + 1` of `put_node_content_in_dummy_sync_node`, in terms of
      the values the node and the aggregation node held before the loop. */
  method DrainStep(node: Node, dummy: Node, ghost b0: seq<Block>, ghost s0: nat, ghost d0: seq<uint32>, ghost n: nat)
    returns (status: Status, post: Block?)
    requires node.Valid() && dummy.Valid() && node != dummy && node.Repr !! dummy.Repr
    requires node.synced == s0 && s0 + n < |b0| && node.blocks == DrainedBlocks(b0, s0, n) && IdsOf(dummy.blocks) == DrainedIds(b0, s0, d0, n)
    modifies node`head, node`tail, node`syncTail, node`blocks, node`synced, node.Repr
    modifies dummy`head, dummy`tail, dummy`blocks, dummy`Repr, dummy.Repr
    ensures node.Valid() && dummy.Valid() && node.Repr == old(node.Repr)
    ensures node.Repr !! dummy.Repr && fresh(dummy.Repr - old(dummy.Repr))
    ensures dummy.synced == old(dummy.synced) && node.synced == s0
    ensures status == Success ==> node.blocks == DrainedBlocks(b0, s0, n + 1) && IdsOf(dummy.blocks) == DrainedIds(b0, s0, d0, n + 1)
    ensures status == Success ==> post == Nth(node.blocks, s0)
  {
    status, post := MovePostSyncBlock(node, dummy);
  }

  /** The blocks of a node holding `b` with `s` blocks synchronised after `n`
      rounds of `put_node_content_in_dummy_sync_node`: each round removes the
      first pending block. */
  ghost function DrainedBlocks(b: seq<Block>, s: nat, n: nat): (r: seq<Block>)
    requires s + n <= |b|
    ensures |r| == |b| - n
    decreases n
  {
    if n == 0 then b else Without(DrainedBlocks(b, s, n - 1), s)
  }

  /** The ids held by the aggregation node, which held `d` before, after the
      same `n` rounds: each round merges the id of the block it removes. */
  ghost function DrainedIds(b: seq<Block>, s: nat, d: seq<uint32>, n: nat): (r: seq<uint32>)
    requires s + n <= |b|
    decreases n
  {
    if n == 0 then d else Ledger.AddNew(DrainedIds(b, s, d, n - 1), DrainedBlocks(b, s, n - 1)[s].id)
  }

  /** After `n` rounds the node holds its synchronised blocks followed by
      the pending blocks from position `s + n` on. */
  lemma {:induction false} DrainedBlocksIs(b: seq<Block>, s: nat, n: nat)
    requires s + n <= |b|
    ensures DrainedBlocks(b, s, n) == b[..s] + b[s + n..]
  {
    if n == 0 {
      assert b[..s] + b[s..] == b;
    } else {
      DrainedBlocksIs(b, s, n - 1);
      WithoutJoin(b[..s], b[s + n - 1..]);
      assert b[s + n - 1..][1..] == b[s + n..];
    }
  }

  /** After `n` rounds the aggregation node has merged the ids of the `n`
      pending blocks from position `s` on. */
  lemma {:induction false} DrainedIdsIs(b: seq<Block>, s: nat, d: seq<uint32>, n: nat)
    requires s + n <= |b|
    ensures DrainedIds(b, s, d, n) == Ledger.AppendNew(d, IdsOf(b)[s..s + n])
  {
    if n == 0 {
      assert IdsOf(b)[s..s] == [];
    } else {
      DrainedIdsIs(b, s, d, n - 1);
      DrainedBlocksIs(b, s, n - 1);
      var xs, x := IdsOf(b)[s..s + n - 1], b[s + n - 1].id;
      assert (b[..s] + b[s + n - 1..])[s] == b[s + n - 1];
      assert IdsOf(b)[s..s + n] == xs + [x];
      Ledger.AppendNewSnoc(d, xs, x);
    }
  }

  /** Once no pending block is left, the node holds its synchronised blocks
      and the aggregation node has merged all of its pending ids. */
  lemma DrainedAll(id: uint32, b0: seq<Block>, s0: nat, d0: seq<uint32>, n: nat)
    requires s0 + n == |b0|
    ensures Ledger.NodeView(id, IdsOf(DrainedBlocks(b0, s0, n)), s0) == Ledger.Strip(Ledger.NodeView(id, IdsOf(b0), s0))
    ensures DrainedIds(b0, s0, d0, n) == Ledger.AppendNew(d0, Ledger.Pending(Ledger.NodeView(id, IdsOf(b0), s0)))
  {
    DrainedBlocksIs(b0, s0, n);
    DrainedIdsIs(b0, s0, d0, n);
    assert b0[..s0] + b0[s0 + n..] == b0[..s0];
    assert IdsOf(b0)[s0..s0 + n] == IdsOf(b0)[s0..];
    assert IdsOf(b0[..s0]) == IdsOf(b0)[..s0];
  }

  /** One round of the loop of `put_node_content_in_dummy_sync_node`: the
      successor of the first post-sync block is read, the block is merged
      into the aggregation node and then removed from `node`. */
  method MovePostSyncBlock(node: Node, dummy: Node) returns (status: Status, next: Block?)
    requires node.Valid() && dummy.Valid() && node != dummy && node.Repr !! dummy.Repr
    requires node.synced < |node.blocks|
    modifies node`head, node`tail, node`syncTail, node`blocks, node`synced, node.Repr
    modifies dummy`head, dummy`tail, dummy`blocks, dummy`Repr, dummy.Repr
    ensures node.Valid() && dummy.Valid() && node.Repr == old(node.Repr)
    ensures node.Repr !! dummy.Repr && fresh(dummy.Repr - old(dummy.Repr))
    ensures dummy.synced == old(dummy.synced) && node.synced == old(node.synced)
    ensures status == Success ==>
      && node.blocks == Without(old(node.blocks), old(node.synced))
      && next == Nth(node.blocks, node.synced)
      && IdsOf(dummy.blocks) == Ledger.AddNew(old(IdsOf(dummy.blocks)), old(node.blocks)[old(node.synced)].id)
  {
    ghost var b0, s0 := node.blocks, node.synced;
    var current := node.PostSyncChain();
    next := current.next;
    status := PutBlockInDummy(current, dummy);
    if status == Failure {
      return;
    }
    LinkedIsChain(b0);
    FirstIndexOfDistinct(b0, s0);
    node.RmvBlock(current);
  }

  class Registry {
    var head: Node?
    var tail: Node?
    var numNodes: nat
    ghost var nodes: seq<Node>
    /** Every block owned by a node of the registry (and possibly blocks
        owned earlier). */
    ghost var Repr: set<Block>
    /** The node that holds each block of the registry's nodes. */
    ghost var owner: map<Block, Node>

    ghost predicate Valid()
      reads this, nodes, Repr
    {
      Listed() && NodesValid() && Owned()
    }

    /** Every node of a valid registry has its cursor inside its chain. */
    lemma ValidWellFormed()
      requires Valid()
      ensures Ledger.AllWellFormed(View())
    {
      forall i | 0 <= i < |nodes| ensures Ledger.WellFormed(View()[i]) {
        assert nodes[i].Valid();
      }
    }

    /** The list structure: the nodes are linked in the order of `nodes`,
        `head`/`tail` are its ends and `num_nodes` its length. */
    ghost predicate Listed()
      reads this`head, this`tail, this`numNodes, this`nodes, nodes`prev, nodes`next
    {
      && NodesLinked(nodes)
      && head == NthNode(nodes, 0)
      && tail == PriorNode(nodes, |nodes|)
      && numNodes == |nodes|
    }

    /** Every node is valid and its blocks belong to the registry. */
    ghost predicate NodesValid()
      reads this`nodes, this`Repr, nodes`head, nodes`syncTail, nodes`tail, nodes`blocks, nodes`synced, nodes`Repr, Repr
    {
      && (forall i :: 0 <= i < |nodes| ==> nodes[i].Repr <= Repr)
      && (forall i {:trigger nodes[i].Valid()} :: 0 <= i < |nodes| ==> nodes[i].Valid())
    }

    /** Every block of a node is owned by that node, so no block is held by
        two nodes. */
    ghost predicate Owned()
      reads this`nodes, this`owner, nodes`Repr
    {
      forall i :: 0 <= i < |nodes| ==> forall b :: b in nodes[i].Repr ==> b in owner && owner[b] == nodes[i]
    }

    /** The registry as a value. */
    ghost function View(): (vs: seq<Ledger.NodeView>)
      reads this`nodes, nodes`blocks, nodes`synced
    {
      ViewsOf(nodes)
    }

    /** The zero-initialised static registry: no nodes. */
    constructor ()
      ensures Valid() && nodes == [] && Repr == {}
    {
      head, tail, numNodes := null, null, 0;
      nodes, Repr, owner := [], {}, map[];
    }

    /** `get_nodes`: the first node, from which the list can be walked. */
    function GetNodes(): (r: Node?)
      reads this, nodes, Repr
      requires Valid()
      ensures r == NthNode(nodes, 0)
    {
      head
    }

    /** `get_num_nodes`. */
    function GetNumNodes(): (r: nat)
      reads this, nodes, Repr
      requires Valid()
      ensures r == |nodes| && r == |View()|
    {
      numNodes
    }

    /** `is_empty`. */
    function IsEmpty(): (r: bool)
      reads this, nodes, Repr
      requires Valid()
      ensures r <==> nodes == []
    {
      numNodes == 0
    }

    /** `get_node_from_id`: the first node in registry order with that id, or
        null when there is none. */
    method GetNodeFromId(nid: uint32) returns (node: Node?)
      requires Valid()
      ensures node == NthNode(nodes, FirstIndex(NodeIds(nodes), nid))
    {
      node := head;
      ghost var i := 0;
      while node != null && node.id != nid
        invariant 0 <= i <= |nodes| && node == NthNode(nodes, i)
        invariant forall j :: 0 <= j < i ==> nodes[j].id != nid
        decreases |nodes| - i
      {
        node := node.next;
        i := i + 1;
      }
    }

    /** `has_node_with_id`. */
    method HasNodeWithId(nid: uint32) returns (r: bool)
      requires Valid()
      ensures r <==> nid in NodeIds(nodes)
    {
      var node := GetNodeFromId(nid);
      r := node != null;
    }

    /** `desync`: every cursor in the registry is cleared; chains are kept. */
    method Desync()
      requires Valid()
      modifies nodes`syncTail, nodes`synced
      ensures Valid()
      ensures forall i :: 0 <= i < |nodes| ==> nodes[i].blocks == old(nodes[i].blocks) && nodes[i].synced == 0
    {
      ghost var ns := nodes;
      ghost var pos := NodesLinkedIsIndexed(ns);
      var node := head;
      ghost var i := 0;
      while node != null
        invariant 0 <= i <= |ns| && node == NthNode(ns, i)
        invariant NodesLinked(ns)
        invariant forall j {:trigger ns[j].Valid()} :: 0 <= j < |ns| ==> ns[j].Valid()
        invariant forall j :: 0 <= j < |ns| ==> ns[j].blocks == old(ns[j].blocks)
        invariant forall j :: 0 <= j < i ==> ns[j].synced == 0
        invariant forall j :: i <= j < |ns| ==> ns[j].synced == old(ns[j].synced)
        decreases |ns| - i
      {
        node.ClearCursor();
        node := node.next;
        i := i + 1;
      }
    }

    /** `add_node`: appends a detached node at the tail. The first node of an
        empty registry is added as it is; otherwise every cursor already in
        the registry is cleared first, the new node's own cursor is kept. */
    method AddNode(node: Node)
      requires Valid() && node.Valid()
      requires node !in nodes && node.prev == null && node.next == null
      requires node.Repr !! Repr
      modifies this, nodes`syncTail, nodes`synced, nodes`next, node`prev
      ensures Valid()
      ensures nodes == old(nodes) + [node] && Repr == old(Repr) + node.Repr
      ensures View() == (if old(nodes) == [] then [] else Ledger.Desync(old(View()))) + [node.View()]
      ensures node.View() == old(node.View())
    {
      if IsEmpty() {
        AddFirstNode(node);
        return;
      }
      ghost var n0, v0 := nodes, View();
      Desync();
      assert node.Valid() && node.prev == null && node.next == null;
      assert forall i :: 0 <= i < |n0| ==> n0[i].View() == v0[i].(synced := 0);
      LinkAtTail(node);
      ViewAfterDesyncAppend(n0, v0, node);
    }

    /** The view of `n0 + [node]` when every node of `n0` has lost its
        cursor since the view `v0` was taken. */
    lemma ViewAfterDesyncAppend(n0: seq<Node>, v0: seq<Ledger.NodeView>, node: Node)
      requires nodes == n0 + [node] && |v0| == |n0|
      requires forall i :: 0 <= i < |n0| ==> n0[i].View() == v0[i].(synced := 0)
      ensures View() == Ledger.Desync(v0) + [node.View()]
    {
      assert nodes[..|n0|] == n0;
    }

    /** `add_first_node`: the node becomes head and tail of an empty registry. */
    method AddFirstNode(node: Node)
      requires Valid() && nodes == [] && node.Valid()
      requires node.prev == null && node.next == null
      modifies this
      ensures Valid()
      ensures nodes == [node] && Repr == old(Repr) + node.Repr
      ensures View() == [node.View()]
    {
      head, tail := node, node;
      numNodes := 1;
      nodes, Repr := [node], Repr + node.Repr;
      owner := owner + map b | b in node.Repr :: node;
      assert nodes[..0] == [];
      assert View() == ViewsOf([]) + [node.View()];
    }

    /** The linking part of `add_node` on a non-empty registry: the node is
        linked after the tail and counted. */
    method LinkAtTail(node: Node)
      requires Valid() && nodes != [] && node.Valid()
      requires node !in nodes && node.prev == null && node.next == null
      requires node.Repr !! Repr
      modifies this, tail`next, node`prev
      ensures Valid()
      ensures nodes == old(nodes) + [node] && Repr == old(Repr) + node.Repr
    {
      ghost var n0, r0, o0 := nodes, Repr, owner;
      LinkAfter(n0, tail, node);
      tail := node;
      numNodes := numNodes + 1;
      nodes, Repr := n0 + [node], Repr + node.Repr;
      owner := owner + map b | b in node.Repr :: node;
      OwnershipAfterAppend(n0, r0, o0, node);
    }

    /** The pointer part of `add_node`: `node` is linked in after `last`,
        the last node of the list `s`. */
    static method LinkAfter(ghost s: seq<Node>, last: Node, node: Node)
      requires NodesLinked(s) && s != [] && last == s[|s| - 1]
      requires node !in s && node.prev == null && node.next == null
      modifies last`next, node`prev
      ensures NodesLinked(s + [node])
    {
      LastNodeIsUnique(s);
      node.prev := last;
      last.next := node;
      NodesLinkedAppend(s, node);
    }

    /** Appending a valid node whose blocks are new to the registry keeps
        every node valid and the nodes' blocks pairwise disjoint. */
    lemma OwnershipAfterAppend(n0: seq<Node>, r0: set<Block>, o0: map<Block, Node>, node: Node)
      requires nodes == n0 + [node] && Repr == r0 + node.Repr
      requires owner == o0 + map b | b in node.Repr :: node
      requires forall i {:trigger n0[i].Valid()} :: 0 <= i < |n0| ==> n0[i].Valid()
      requires forall i :: 0 <= i < |n0| ==> n0[i].Repr <= r0
      requires forall i :: 0 <= i < |n0| ==> forall b :: b in n0[i].Repr ==> b in o0 && o0[b] == n0[i]
      requires node.Valid() && node.Repr !! r0
      ensures NodesValid() && Owned()
    {
      forall i | 0 <= i < |nodes| ensures nodes[i].Valid() {
        if i < |n0| {
          assert nodes[i] == n0[i];
        }
      }
    }

    /** `rmv_node`: unlinks `node` from the registry and decrements the count.
        Removing the only node (or calling on an empty registry) resets the
        registry to empty. Otherwise sentinel nodes are attached before the
        head and after the tail so that the unlink needs no null test, then
        detached again. Releasing the node's memory is not modelled: its
        blocks stay in `Repr`. */
    method RmvNode(node: Node)
      requires Valid() && (node in nodes || nodes == [])
      modifies this`head, this`tail, this`numNodes, this`nodes, nodes`prev, nodes`next
      ensures Valid()
      ensures old(nodes) == [] ==> nodes == []
      ensures old(nodes) != [] ==>
        var k := FirstIndex(old(nodes), node);
        && nodes == Without(old(nodes), k)
        && |old(View())| == |old(nodes)| && View() == Without(old(View()), k)
    {
      ghost var n0, v0 := nodes, View();
      if IsEmpty() || numNodes == 1 {
        Clear();
        assert View() == [];
        return;
      }
      ghost var k := FirstIndex(n0, node);
      RemoveNodeAt(node, k);
      ViewAfterRemoval(n0, v0, k);
    }

    /** The registry is reset to empty. */
    method Clear()
      requires Valid()
      modifies this`head, this`tail, this`numNodes, this`nodes
      ensures Valid() && nodes == []
    {
      head, tail := null, null;
      numNodes := 0;
      nodes := [];
    }

    /** Removal of the node at position `k` from a registry of two or more
        nodes. */
    method RemoveNodeAt(node: Node, ghost k: nat)
      requires Valid() && 2 <= |nodes| && k < |nodes| && nodes[k] == node
      modifies this`head, this`tail, this`numNodes, this`nodes, nodes`prev, nodes`next
      ensures Valid() && nodes == Without(old(nodes), k)
    {
      ghost var n0 := nodes;
      UnspliceNode(node, n0, k);
      assert forall i {:trigger n0[i].Valid()} :: 0 <= i < |n0| ==> n0[i].Valid();
      numNodes := numNodes - 1;
      nodes := Without(n0, k);
      OwnershipAfterRemoval(n0, k);
    }

    /** The part of `rmv_node` for a list `s` of two or more nodes with
        `node` at position `k`: attach sentinels, unlink, detach sentinels. */
    method UnspliceNode(node: Node, ghost s: seq<Node>, ghost k: nat)
      requires NodesLinked(s) && |s| >= 2 && k < |s| && s[k] == node
      requires head == s[0] && tail == s[|s| - 1]
      modifies this`head, this`tail, s`prev, s`next
      ensures NodesLinked(Without(s, k))
      ensures head == Without(s, k)[0] && tail == Without(s, k)[|s| - 2]
    {
      NodesLinkedIsDistinct(s);
      var dummyHead := new Node(0);
      var dummyTail := new Node(0);
      AttachSentinels(dummyHead, dummyTail);
      ghost var pred := if k == 0 then dummyHead else s[k - 1];
      ghost var succ := if k == |s| - 1 then dummyTail else s[k + 1];
      assert node.prev == pred && node.next == succ;
      UnlinkNode(node);
      DetachSentinels(dummyHead, dummyTail);
      NodesLinkedAfterRemoval(s, k);
    }

    /** `attach_dummy_head_and_tail` of the registry: sentinel nodes are
        linked in before the head and after the tail. */
    method AttachSentinels(dummyHead: Node, dummyTail: Node)
      requires head != null && tail != null
      requires dummyHead != tail && dummyTail != head
      modifies head`prev, dummyHead`next, tail`next, dummyTail`prev
      ensures head.prev == dummyHead && dummyHead.next == head
      ensures tail.next == dummyTail && dummyTail.prev == tail
    {
      head.prev := dummyHead;
      dummyHead.next := head;
      tail.next := dummyTail;
      dummyTail.prev := tail;
    }

    /** `detach_dummy_head_and_tail` of the registry: the nodes next to the
        sentinels become head and tail, with null outer links. */
    method DetachSentinels(dummyHead: Node, dummyTail: Node)
      requires dummyHead.next != null && dummyTail.prev != null
      modifies this`head, this`tail, dummyHead.next`prev, dummyTail.prev`next
      ensures head == old(dummyHead.next) && head.prev == null
      ensures tail == old(dummyTail.prev) && tail.next == null
    {
      var first, last := dummyHead.next, dummyTail.prev;
      first.prev := null;
      last.next := null;
      head, tail := first, last;
    }

    /** Dropping the node at position `k` keeps every remaining node valid and
        the nodes' blocks pairwise disjoint. */
    lemma OwnershipAfterRemoval(n0: seq<Node>, k: nat)
      requires k < |n0| && nodes == Without(n0, k)
      requires forall i {:trigger n0[i].Valid()} :: 0 <= i < |n0| ==> n0[i].Valid()
      requires forall i :: 0 <= i < |n0| ==> n0[i].Repr <= Repr
      requires forall i :: 0 <= i < |n0| ==> forall b :: b in n0[i].Repr ==> b in owner && owner[b] == n0[i]
      ensures NodesValid() && Owned()
    {
      forall i | 0 <= i < |nodes| ensures nodes[i].Valid() {
        if i < k {
          assert nodes[i] == n0[i];
        } else {
          assert nodes[i] == n0[i + 1];
        }
      }
      forall i | 0 <= i < |nodes| ensures nodes[i] == n0[if i < k then i else i + 1] {
      }
    }

    /** The view after dropping the node at position `k` is the old view
        without its `k`-th entry. */
    lemma ViewAfterRemoval(n0: seq<Node>, v0: seq<Ledger.NodeView>, k: nat)
      requires k < |n0| && nodes == Without(n0, k)
      requires v0 == ViewsOf(n0)
      ensures k < |v0| && View() == Without(v0, k)
    {
    }

    /** `all_nodes_are_empty`. */
    method AllNodesAreEmpty() returns (r: bool)
      requires Valid()
      ensures r <==> forall i :: 0 <= i < |View()| ==> Ledger.IsEmpty(View()[i])
    {
      var node := head;
      ghost var i := 0;
      while node != null
        invariant 0 <= i <= |nodes| && node == NthNode(nodes, i)
        invariant forall j :: 0 <= j < i ==> Ledger.IsEmpty(View()[j])
        decreases |nodes| - i
      {
        assert nodes[i].Valid() && View()[i] == nodes[i].View();
        if !node.IsEmpty() {
          return false;
        }
        node := node.next;
        i := i + 1;
      }
      return true;
    }

    /** `blockchain_is_synced`: true when every node is empty (a registry
        without nodes included); otherwise true exactly when no node is empty
        and every node's cursor is on its tail. */
    method BlockchainIsSynced() returns (r: bool)
      requires Valid()
      ensures r == Ledger.RegistrySynced(View())
    {
      var allEmpty := AllNodesAreEmpty();
      if allEmpty {
        return true;
      }
      var node := head;
      ghost var i := 0;
      while node != null
        invariant 0 <= i <= |nodes| && node == NthNode(nodes, i)
        invariant forall j :: 0 <= j < i ==> !Ledger.IsEmpty(View()[j]) && Ledger.LocallySynced(View()[j])
        decreases |nodes| - i
      {
        assert nodes[i].Valid() && View()[i] == nodes[i].View();
        if node.IsEmpty() || !node.IsSynced() {
          return false;
        }
        node := node.next;
        i := i + 1;
      }
      return true;
    }

    /** `synchronize`: the post-sync blocks of every node are moved into a
        fresh aggregation node (each id once, in registry and chain order);
        then, unless that node is empty, every node gets a copy of its chain
        appended and is declared synced. The aggregation node is not part of
        the registry. On an allocation failure `Failure` is returned and the
        registry is left valid but partly synchronised. */
    method Synchronize() returns (status: Status)
      requires Valid()
      modifies this`Repr, this`owner, nodes`head, nodes`tail, nodes`syncTail, nodes`blocks, nodes`synced, nodes`Repr, Repr
      ensures Valid() && nodes == old(nodes)
      ensures Ledger.AllWellFormed(old(View()))
      ensures status == Success ==> View() == Ledger.Broadcast(old(View()))
    {
      ghost var v0 := View();
      ValidWellFormed();
      var dummy := new Node(0);
      status := FillAndSync(dummy, v0);
    }

    /** The two phases of `synchronize` once the aggregation node exists. */
    method FillAndSync(dummy: Node, ghost v0: seq<Ledger.NodeView>) returns (status: Status)
      requires Valid() && v0 == View() && Ledger.AllWellFormed(v0)
      requires dummy.Valid() && dummy.blocks == [] && dummy !in nodes && dummy.Repr !! Repr
      modifies this`Repr, this`owner, nodes`head, nodes`tail, nodes`syncTail, nodes`blocks, nodes`synced, nodes`Repr, Repr
      modifies dummy`head, dummy`tail, dummy`blocks, dummy`Repr, dummy.Repr
      ensures Valid() && nodes == old(nodes)
      ensures status == Success ==> View() == Ledger.Broadcast(v0)
    {
      status := FillDummySyncNode(dummy, v0);
      if status == Success {
        status := SyncNodes(dummy, View());
      }
    }

    /** `fill_dummy_sync_node`: `put_node_content_in_dummy_sync_node` for
        every node in registry order; stops at the first failure. */
    method FillDummySyncNode(dummy: Node, ghost v0: seq<Ledger.NodeView>) returns (status: Status)
      requires Valid() && v0 == View() && Ledger.AllWellFormed(v0)
      requires dummy.Valid() && dummy.blocks == [] && dummy !in nodes && dummy.Repr !! Repr
      modifies nodes`head, nodes`tail, nodes`syncTail, nodes`blocks, nodes`synced, Repr
      modifies dummy`head, dummy`tail, dummy`blocks, dummy`Repr, dummy.Repr
      ensures Valid() && dummy.Valid() && dummy.Repr !! Repr
      ensures status == Success ==> IdsOf(dummy.blocks) == Ledger.Aggregate(v0)
      ensures status == Success ==> View() == Ledger.StripAll(v0)
    {
      Ledger.StripFirstEnds(v0);
      status := FillLoop(dummy, nodes, v0);
      if status == Success {
        Ledger.AggregateOfAll(v0);
      }
    }

    /** The loop of `fill_dummy_sync_node`. */
    method FillLoop(dummy: Node, ghost ns: seq<Node>, ghost v0: seq<Ledger.NodeView>) returns (status: Status)
      requires Filling(dummy, ns, v0, 0)
      modifies nodes`head, nodes`tail, nodes`syncTail, nodes`blocks, nodes`synced, Repr
      modifies dummy`head, dummy`tail, dummy`blocks, dummy`Repr, dummy.Repr
      ensures Valid() && dummy.Valid() && dummy.Repr !! Repr
      ensures status == Success ==> Filling(dummy, ns, v0, |ns|)
    {
      var node := head;
      ghost var i := 0;
      while node != null
        invariant Filling(dummy, ns, v0, i) && node == NthNode(ns, i)
        invariant fresh(dummy.Repr - old(dummy.Repr))
        decreases |ns| - i
      {
        status := FillStep(node, dummy, ns, v0, i);
        if status == Failure {
          return;
        }
        i := i + 1;
        node := node.next;
      }
      return Success;
    }

    /** The state of `fill_dummy_sync_node` once the first `i` nodes have
        been emptied into the aggregation node `dummy`. */
    ghost predicate Filling(dummy: Node, ns: seq<Node>, v0: seq<Ledger.NodeView>, i: nat)
      reads this, nodes, Repr, dummy, dummy.Repr
    {
      && Valid() && nodes == ns && i <= |ns|
      && dummy.Valid() && dummy !in ns && dummy.Repr !! Repr
      && Ledger.AllWellFormed(v0) && |v0| == |ns|
      && View() == Ledger.StripFirst(v0, i)
      && IdsOf(dummy.blocks) == Ledger.AggregateOf(v0, i)
    }

    /** One round of `fill_dummy_sync_node`, for the node at position `i`. */
    method FillStep(node: Node, dummy: Node, ghost ns: seq<Node>,
                    ghost v0: seq<Ledger.NodeView>, ghost i: nat) returns (status: Status)
      requires Filling(dummy, ns, v0, i) && i < |ns| && node == ns[i]
      modifies node`head, node`tail, node`syncTail, node`blocks, node`synced, node.Repr
      modifies dummy`head, dummy`tail, dummy`blocks, dummy`Repr, dummy.Repr
      ensures Valid() && dummy.Valid() && dummy.Repr !! Repr && fresh(dummy.Repr - old(dummy.Repr))
      ensures node.next == NthNode(ns, i + 1)
      ensures status == Success ==> Filling(dummy, ns, v0, i + 1)
    {
      assert node.Valid() && node.Repr <= Repr && node.View() == v0[i];
      ghost var pos := NodesLinkedIsIndexed(ns);
      assert node.next == NthNode(ns, i + 1);
      status := PutNodeContent(node, dummy);
      OthersKept(i);
      if status == Success {
        Ledger.StripFirstStep(v0, i);
        Ledger.AggregateStep(v0, i);
      }
    }

    /** A step that changes only the node at position `k`, and of the
        registry's blocks only those of that node, leaves the list and every
        other node as they were. */
    twostate lemma OthersKept(k: nat)
      requires old(Valid()) && nodes == old(nodes) && Repr == old(Repr) && owner == old(owner)
      requires head == old(head) && tail == old(tail) && numNodes == old(numNodes) && k < |nodes|
      requires nodes[k].prev == old(nodes[k].prev) && nodes[k].next == old(nodes[k].next)
      requires forall j :: 0 <= j < |nodes| && nodes[j] != nodes[k] ==> unchanged(nodes[j])
      requires forall b: Block :: b in old(Repr) && b !in old(nodes[k].Repr) ==> unchanged(b)
      ensures Listed()
      ensures forall j {:trigger nodes[j].Valid()} :: 0 <= j < |nodes| && j != k ==> nodes[j].Valid()
      ensures View() == old(View())[k := nodes[k].View()]
      ensures nodes[k].Valid() && nodes[k].Repr == old(nodes[k].Repr) ==> Valid()
    {
      assert Listed();
      ghost var pos := NodesLinkedIsIndexed(nodes);
      forall j | 0 <= j < |nodes| && j != k
        ensures nodes[j].Valid() && nodes[j].View() == old(nodes[j].View())
      {
        assert old(nodes[j].Valid()) && pos[nodes[j]] != pos[nodes[k]];
        forall b | b in nodes[j].Repr ensures unchanged(b) {
          assert old(owner[b]) == nodes[j];
        }
      }
    }

    /** `sync_nodes`: unless the aggregation node is empty, every node in
        registry order gets a fresh copy of its chain appended and is declared
        synced; stops at the first failed copy. */
    method SyncNodes(dummy: Node, ghost v1: seq<Ledger.NodeView>) returns (status: Status)
      requires Valid() && v1 == View()
      requires dummy.Valid() && dummy !in nodes && dummy.Repr !! Repr
      modifies this`Repr, this`owner, nodes`head, nodes`tail, nodes`syncTail, nodes`blocks, nodes`synced, nodes`Repr, Repr
      ensures Valid() && nodes == old(nodes)
      ensures status == Success ==> View() == Ledger.ReceiveAll(v1, IdsOf(dummy.blocks))
    {
      ghost var ns := nodes;
      if dummy.IsEmpty() {
        assert Ledger.ReceiveAll(v1, []) == v1;
        return Success;
      }
      ghost var agg := IdsOf(dummy.blocks);
      Ledger.ReceiveFirstEnds(v1, agg);
      status := SyncLoop(dummy, ns, v1, agg);
    }

    /** The loop of `sync_nodes`: every node in turn receives `agg`. */
    method SyncLoop(dummy: Node, ghost ns: seq<Node>,
                    ghost v1: seq<Ledger.NodeView>, ghost agg: seq<uint32>) returns (status: Status)
      requires Syncing(dummy, ns, v1, agg, 0)
      modifies this`Repr, this`owner, nodes`head, nodes`tail, nodes`syncTail, nodes`blocks, nodes`synced, nodes`Repr, Repr
      ensures Valid() && nodes == ns
      ensures status == Success ==> View() == Ledger.ReceiveFirst(v1, agg, |ns|)
    {
      var node := head;
      ghost var i := 0;
      while node != null
        invariant Syncing(dummy, ns, v1, agg, i) && node == NthNode(ns, i)
        invariant fresh(Repr - old(Repr))
        decreases |ns| - i
      {
        status := SyncStep(node, dummy, ns, v1, agg, i);
        if status == Failure {
          return;
        }
        i := i + 1;
        node := node.next;
      }
      return Success;
    }

    /** The state of `sync_nodes` once the first `i` nodes have received the
        aggregate `agg` held by `dummy`. */
    ghost predicate Syncing(dummy: Node, ns: seq<Node>, v1: seq<Ledger.NodeView>,
                            agg: seq<uint32>, i: nat)
      reads this, nodes, Repr, dummy, dummy.Repr
    {
      && Valid() && nodes == ns && i <= |ns|
      && dummy.Valid() && dummy !in ns && dummy.Repr !! Repr && IdsOf(dummy.blocks) == agg && agg != []
      && |v1| == |ns|
      && View() == Ledger.ReceiveFirst(v1, agg, i)
    }

    /** One round of `sync_nodes`, for the node at position `i`; the blocks
        it receives join the registry's footprint. */
    method SyncStep(node: Node, dummy: Node, ghost ns: seq<Node>,
                    ghost v1: seq<Ledger.NodeView>, ghost agg: seq<uint32>, ghost i: nat) returns (status: Status)
      requires Syncing(dummy, ns, v1, agg, i) && i < |ns| && node == ns[i]
      modifies this`Repr, this`owner, node`head, node`tail, node`syncTail, node`blocks, node`synced, node`Repr, node.Repr
      ensures Valid() && nodes == ns && fresh(Repr - old(Repr))
      ensures node.next == NthNode(ns, i + 1)
      ensures status == Success ==> Syncing(dummy, ns, v1, agg, i + 1)
    {
      assert node.Valid() && node.Repr <= Repr && node.View() == v1[i];
      ghost var pos := NodesLinkedIsIndexed(ns);
      assert node.next == NthNode(ns, i + 1);
      status := ReceiveInto(node, dummy, i);
      if status == Success {
        Ledger.ReceiveFirstStep(v1, agg, i);
      }
    }

    /** The loop body of `sync_nodes` on the node at position `k`, as seen
        by the registry: the blocks the node receives join its footprint. */
    method ReceiveInto(node: Node, dummy: Node, ghost k: nat) returns (status: Status)
      requires Valid() && k < |nodes| && node == nodes[k]
      requires dummy.Valid() && dummy.blocks != [] && dummy !in nodes && dummy.Repr !! Repr
      modifies this`Repr, this`owner, node`head, node`tail, node`syncTail, node`blocks, node`synced, node`Repr, node.Repr
      ensures Valid() && fresh(Repr - old(Repr)) && dummy.Valid() && dummy.Repr !! Repr
      ensures View() == old(View())[k := node.View()]
      ensures status == Success ==> node.View() == Ledger.Receive(old(node.View()), IdsOf(dummy.blocks))
    {
      assert node.Valid() && node.Repr <= Repr && node.Repr !! dummy.Repr;
      status := ReceiveCopy(node, dummy);
      Repr, owner := Repr + node.Repr, owner + map b | b in node.Repr :: node;
      assert node.Valid() && dummy.Valid();
      Received(k);
    }

    /** A step that has appended fresh blocks to the node at position `k`,
        and changed nothing else but the registry's footprint and owner map,
        which now include those blocks, leaves the registry valid; only that
        node's value has changed. */
    twostate lemma Received(k: nat)
      requires old(Valid()) && nodes == old(nodes) && k < |nodes|
      requires head == old(head) && tail == old(tail) && numNodes == old(numNodes)
      requires Repr == old(Repr) + nodes[k].Repr && owner == old(owner) + map b | b in nodes[k].Repr :: nodes[k]
      requires nodes[k].prev == old(nodes[k].prev) && nodes[k].next == old(nodes[k].next) && nodes[k].Valid()
      requires old(nodes[k].Repr) <= nodes[k].Repr && fresh(nodes[k].Repr - old(nodes[k].Repr))
      requires forall j :: 0 <= j < |nodes| && nodes[j] != nodes[k] ==> unchanged(nodes[j])
      requires forall b: Block :: b in old(Repr) && b !in old(nodes[k].Repr) ==> unchanged(b)
      ensures Valid()
      ensures View() == old(View())[k := nodes[k].View()]
    {
      assert Listed();
      ghost var pos := NodesLinkedIsIndexed(nodes);
      forall j | 0 <= j < |nodes| && j != k
        ensures nodes[j].Valid() && nodes[j].View() == old(nodes[j].View())
      {
        assert old(nodes[j].Valid()) && pos[nodes[j]] != pos[nodes[k]];
        forall b | b in nodes[j].Repr ensures unchanged(b) {
          assert old(owner[b]) == nodes[j];
        }
      }
      forall j, b | 0 <= j < |nodes| && b in nodes[j].Repr ensures b in owner && owner[b] == nodes[j] {
        if j != k {
          assert b in old(nodes[j].Repr) && old(owner[b]) == nodes[j];
          assert pos[nodes[j]] != pos[nodes[k]];
        }
      }
    }

    /** `update_sync_state`: every cursor moves forward, in lockstep, over the
        longest run of blocks that every node has after its cursor and on
        whose ids all nodes agree. With no node nothing happens. Only the
        cursors change. */
    method UpdateSyncState()
      requires Valid()
      modifies nodes`syncTail, nodes`synced
      ensures Valid() && nodes == old(nodes)
      ensures Ledger.AllWellFormed(old(View()))
      ensures View() == Ledger.Advance(old(View()))
    {
      ValidWellFormed();
      if numNodes == 0 {
        return;
      }
      ghost var v0 := View();
      ghost var bs, ss := ChainsOf(nodes), CursorsOf(nodes);
      ChainsOfValid();
      PendingsOfView();
      ghost var k := AdvanceCursors(bs, ss);
      ViewAfterAdvance(v0, bs, ss, k);
    }

    /** The body of `update_sync_state` on a non-empty registry whose chains
        and cursor positions are `bs` and `ss`: every cursor moves `k`
        places, `k` being the common prefix length of the pending ids. */
    method AdvanceCursors(ghost bs: seq<seq<Block>>, ghost ss: seq<nat>) returns (ghost k: nat)
      requires Valid() && nodes != [] && Snapshot(bs, ss)
      requires forall i :: 0 <= i < |bs| ==> Linked(bs[i]) && ss[i] <= |bs[i]|
      modifies nodes`syncTail, nodes`synced
      ensures Valid() && nodes == old(nodes)
      ensures k == Ledger.CommonPrefixLength(PendingsOf(bs, ss))
      ensures forall i :: 0 <= i < |nodes| ==> nodes[i].blocks == bs[i] && nodes[i].synced == ss[i] + k
    {
      var dummyHeads, syncTails;
      ghost var ds;
      dummyHeads, syncTails, ds, k := Walk(bs, ss);
      Teardown(dummyHeads, syncTails, bs, ss, k);
    }

    /** Setup and main loop of `update_sync_state`: only fresh sentinels and
        arrays are written. */
    method Walk(ghost bs: seq<seq<Block>>, ghost ss: seq<nat>)
        returns (dummyHeads: array<Block?>, syncTails: array<Block?>, ghost ds: seq<Block>, ghost k: nat)
      requires Valid() && nodes != [] && Snapshot(bs, ss)
      requires forall i :: 0 <= i < |bs| ==> Linked(bs[i]) && ss[i] <= |bs[i]|
      ensures Walking(dummyHeads, syncTails, ds, bs, ss, k)
      ensures k == Ledger.CommonPrefixLength(PendingsOf(bs, ss))
    {
      dummyHeads, syncTails, ds := SetupCursors(bs, ss);
      k := AdvanceWhilePossible(syncTails, dummyHeads, ds, bs, ss);
    }

    /** The main loop of `update_sync_state`: the walking cursors advance in
        lockstep while they can, which is exactly the common prefix length
        of the pending ids. */
    method AdvanceWhilePossible(syncTails: array<Block?>, ghost dummyHeads: array<Block?>, ghost ds: seq<Block>,
                                ghost bs: seq<seq<Block>>, ghost ss: seq<nat>) returns (ghost k: nat)
      requires Walking(dummyHeads, syncTails, ds, bs, ss, 0)
      requires numNodes == |bs| && forall i :: 0 <= i < |bs| ==> Linked(bs[i])
      modifies syncTails
      ensures Walking(dummyHeads, syncTails, ds, bs, ss, k)
      ensures k == Ledger.CommonPrefixLength(PendingsOf(bs, ss))
    {
      ghost var ps := PendingsOf(bs, ss);
      k := 0;
      var more := SyncTailsCanAdvance(syncTails, dummyHeads, ds, bs, ss, k);
      while more
        invariant Walking(dummyHeads, syncTails, ds, bs, ss, k)
        invariant more == Ledger.AgreeAt(ps, k)
        invariant Ledger.CommonFrom(ps, k) == Ledger.CommonPrefixLength(ps)
        decreases |ps[0]| - k
      {
        AdvanceSyncTails(syncTails, dummyHeads, ds, bs, ss, k);
        k := k + 1;
        more := SyncTailsCanAdvance(syncTails, dummyHeads, ds, bs, ss, k);
      }
    }

    /** The chain of every node, in registry order. */
    ghost function ChainsOf(ns: seq<Node>): (bs: seq<seq<Block>>)
      reads ns`blocks
      ensures |bs| == |ns| && forall i :: 0 <= i < |ns| ==> bs[i] == ns[i].blocks
      decreases |ns|
    {
      if ns == [] then [] else ChainsOf(ns[..|ns| - 1]) + [ns[|ns| - 1].blocks]
    }

    /** The cursor position of every node, in registry order. */
    ghost function CursorsOf(ns: seq<Node>): (ss: seq<nat>)
      reads ns`synced
      ensures |ss| == |ns| && forall i :: 0 <= i < |ns| ==> ss[i] == ns[i].synced
      decreases |ns|
    {
      if ns == [] then [] else CursorsOf(ns[..|ns| - 1]) + [ns[|ns| - 1].synced]
    }

    /** `bs` and `ss` are the chains and cursor positions of the nodes. */
    ghost predicate Snapshot(bs: seq<seq<Block>>, ss: seq<nat>)
      reads this`nodes, nodes`blocks, nodes`synced
    {
      && |bs| == |nodes| && |ss| == |nodes|
      && forall i :: 0 <= i < |nodes| ==> bs[i] == nodes[i].blocks && ss[i] == nodes[i].synced
    }

    /** The pending ids of chains `bs` with cursor positions `ss`. */
    ghost function PendingsOf(bs: seq<seq<Block>>, ss: seq<nat>): (ps: seq<seq<uint32>>)
      requires |ss| == |bs| && forall i :: 0 <= i < |bs| ==> ss[i] <= |bs[i]|
      ensures |ps| == |bs| && forall i :: 0 <= i < |bs| ==> ps[i] == IdsOf(bs[i])[ss[i]..]
    {
      seq(|bs|, i requires 0 <= i < |bs| => IdsOf(bs[i])[ss[i]..])
    }

    /** The pending ids of the registry's chains are those of its value. */
    lemma PendingsOfView()
      requires Valid()
      ensures Ledger.AllWellFormed(View())
      ensures PendingsOf(ChainsOf(nodes), CursorsOf(nodes)) == Ledger.Pendings(View())
    {
      ValidWellFormed();
    }

    /** The walk of `update_sync_state` after `k` lockstep steps over chains
        `bs` with cursor positions `ss`: `syncTails[i]` is the block `k`
        places past cursor `i`, or the sentinel `ds[i]` (also held in
        `dummyHeads[i]`) while `k` is 0; each sentinel lies outside its chain
        and its `next` is the chain's post-sync part. */
    ghost predicate Walking(dummyHeads: array<Block?>, syncTails: array<Block?>, ds: seq<Block>,
                            bs: seq<seq<Block>>, ss: seq<nat>, k: nat)
      reads dummyHeads, syncTails, ds
    {
      && |bs| > 0 && |ss| == |bs| && |ds| == |bs| && dummyHeads != syncTails
      && dummyHeads.Length == |bs| && syncTails.Length == |bs|
      && (forall i :: 0 <= i < |bs| ==> dummyHeads[i] == ds[i] && ds[i] !in bs[i] && ss[i] + k <= |bs[i]|)
      && (forall i :: 0 <= i < |bs| ==> ds[i].next == Nth(bs[i], ss[i]))
      && (forall i :: 0 <= i < |bs| ==> syncTails[i] == if k == 0 then ds[i] else bs[i][ss[i] + k - 1])
    }

    /** `update_sync_state_setup`: one fresh sentinel per node, whose `next`
        is the node's post-sync chain, and every walking cursor on its
        sentinel. Nothing that exists beforehand is written. */
    method SetupCursors(ghost bs: seq<seq<Block>>, ghost ss: seq<nat>)
        returns (dummyHeads: array<Block?>, syncTails: array<Block?>, ghost ds: seq<Block>)
      requires Valid() && nodes != [] && Snapshot(bs, ss)
      ensures fresh(dummyHeads) && fresh(syncTails)
      ensures Walking(dummyHeads, syncTails, ds, bs, ss, 0)
    {
      dummyHeads := new Block?[numNodes];
      syncTails := new Block?[numNodes];
      assert forall j {:trigger nodes[j].Valid()} :: 0 <= j < |nodes| ==> nodes[j].Valid();
      ds := MakeSentinels(head, nodes, dummyHeads, syncTails, bs, ss);
    }

    /** `sync_tails_can_advance`: every walking cursor has a successor, and
        all successors carry the id of the first one; that is, the pending
        ids agree at position `k`. */
    method SyncTailsCanAdvance(syncTails: array<Block?>, ghost dummyHeads: array<Block?>, ghost ds: seq<Block>,
                               ghost bs: seq<seq<Block>>, ghost ss: seq<nat>, ghost k: nat) returns (r: bool)
      requires Walking(dummyHeads, syncTails, ds, bs, ss, k)
      requires numNodes == |bs| && forall i :: 0 <= i < |bs| ==> Linked(bs[i])
      ensures r == Ledger.AgreeAt(PendingsOf(bs, ss), k)
    {
      ghost var ps := PendingsOf(bs, ss);
      var idSet := false;
      var id: uint32 := 0;
      var i := 0;
      while i < numNodes
        invariant 0 <= i <= |bs| && (idSet <==> i > 0)
        invariant idSet ==> k < |ps[0]| && id == ps[0][k]
        invariant forall j :: 0 <= j < i ==> k < |ps[j]| && ps[j][k] == ps[0][k]
      {
        var next := Successor(syncTails, ds, bs, ss, k, i);
        if next == null || (idSet && next.id != id) {
          return false;
        }
        if !idSet {
          id := next.id;
          idSet := true;
        }
        i := i + 1;
      }
      return true;
    }

    /** `sync_tails[i]->next`: the block `k` places past cursor `i`, or null
        when the chain has no more blocks. */
    static function Successor(syncTails: array<Block?>, ghost ds: seq<Block>, ghost bs: seq<seq<Block>>,
                              ghost ss: seq<nat>, ghost k: nat, i: nat): (b: Block?)
      reads syncTails, ds, if i < |bs| then bs[i] else []
      requires i < |bs| && syncTails.Length == |bs| && |ds| == |bs| && |ss| == |bs|
      requires Linked(bs[i]) && ss[i] + k <= |bs[i]| && ds[i].next == Nth(bs[i], ss[i])
      requires syncTails[i] == if k == 0 then ds[i] else bs[i][ss[i] + k - 1]
      ensures b == Nth(bs[i], ss[i] + k)
    {
      syncTails[i].next
    }

    /** `advance_sync_tails`: every walking cursor steps to its successor,
        which the preceding `sync_tails_can_advance` found to exist. */
    method AdvanceSyncTails(syncTails: array<Block?>, ghost dummyHeads: array<Block?>, ghost ds: seq<Block>,
                            ghost bs: seq<seq<Block>>, ghost ss: seq<nat>, ghost k: nat)
      requires Walking(dummyHeads, syncTails, ds, bs, ss, k) && Ledger.AgreeAt(PendingsOf(bs, ss), k)
      requires numNodes == |bs| && forall i :: 0 <= i < |bs| ==> Linked(bs[i])
      modifies syncTails
      ensures Walking(dummyHeads, syncTails, ds, bs, ss, k + 1)
    {
      ghost var ps := PendingsOf(bs, ss);
      var i := 0;
      while i < numNodes
        invariant 0 <= i <= |bs|
        invariant forall j :: 0 <= j < i ==> syncTails[j] == bs[j][ss[j] + k]
        invariant forall j :: i <= j < |bs| ==> syncTails[j] == old(syncTails[j])
      {
        assert k < |ps[i]|;
        syncTails[i] := Successor(syncTails, ds, bs, ss, k, i);
        i := i + 1;
      }
    }

    /** `update_sync_state_teardown`: every node whose walking cursor left its
        sentinel, that is every node when `k > 0`, gets that block as its
        cursor; the sentinels are dropped. `bs` and `ss` are the chains and
        cursor positions beforehand. */
    method Teardown(dummyHeads: array<Block?>, syncTails: array<Block?>,
                    ghost bs: seq<seq<Block>>, ghost ss: seq<nat>, ghost k: nat)
      requires Valid() && Snapshot(bs, ss)
      requires dummyHeads.Length == |nodes| && syncTails.Length == |nodes|
      requires forall i :: 0 <= i < |nodes| ==> ss[i] + k <= |bs[i]| && dummyHeads[i] !in bs[i]
      requires forall i :: 0 <= i < |nodes| ==> syncTails[i] == if k == 0 then dummyHeads[i] else bs[i][ss[i] + k - 1]
      modifies nodes`syncTail, nodes`synced
      ensures Valid() && nodes == old(nodes)
      ensures forall i :: 0 <= i < |nodes| ==> nodes[i].blocks == bs[i] && nodes[i].synced == ss[i] + k
    {
      assert forall j {:trigger nodes[j].Valid()} :: 0 <= j < |nodes| ==> nodes[j].Valid();
      SetCursors(head, nodes, dummyHeads, syncTails, bs, ss, k);
    }

    /** The chains of a valid registry are linked, and its cursors lie in
        them. */
    lemma ChainsOfValid()
      requires Valid()
      ensures forall i :: 0 <= i < |nodes| ==> Linked(ChainsOf(nodes)[i]) && CursorsOf(nodes)[i] <= |ChainsOf(nodes)[i]|
    {
      forall i | 0 <= i < |nodes| ensures Linked(ChainsOf(nodes)[i]) && CursorsOf(nodes)[i] <= |ChainsOf(nodes)[i]| {
        assert nodes[i].Valid();
      }
    }

    /** Once every cursor of the chains `bs` has moved `k` places past `ss`,
        `k` being the common prefix length of the pending ids of `v0`, the
        registry's value is `Ledger.Advance(v0)`. */
    lemma ViewAfterAdvance(v0: seq<Ledger.NodeView>, bs: seq<seq<Block>>, ss: seq<nat>, k: nat)
      requires Ledger.AllWellFormed(v0) && v0 != [] && |v0| == |nodes| == |bs| == |ss|
      requires forall i :: 0 <= i < |nodes| ==> v0[i] == Ledger.NodeView(nodes[i].id, IdsOf(bs[i]), ss[i])
      requires forall i :: 0 <= i < |nodes| ==> nodes[i].blocks == bs[i] && nodes[i].synced == ss[i] + k
      requires k == Ledger.CommonPrefixLength(Ledger.Pendings(v0))
      ensures View() == Ledger.Advance(v0)
    {
    }
  }

  /** The loop of `update_sync_state_setup` over the linked nodes `ns`,
      starting at `first`: node `i` gets a fresh sentinel `ds[i]`, stored in
      both arrays, whose `next` is the node's post-sync chain. */
  method MakeSentinels(first: Node?, ghost ns: seq<Node>, dummyHeads: array<Block?>, syncTails: array<Block?>,
                       ghost bs: seq<seq<Block>>, ghost ss: seq<nat>) returns (ghost ds: seq<Block>)
    requires NodesLinked(ns) && first == NthNode(ns, 0)
    requires dummyHeads != syncTails && dummyHeads.Length == |ns| && syncTails.Length == |ns|
    requires |bs| == |ns| && |ss| == |ns|
    requires forall i {:trigger ns[i].Valid()} :: 0 <= i < |ns| ==> ns[i].Valid()
    requires forall i :: 0 <= i < |ns| ==> ns[i].blocks == bs[i] && ns[i].synced == ss[i]
    modifies dummyHeads, syncTails
    ensures |ds| == |ns|
    ensures forall j :: 0 <= j < |ns| ==> dummyHeads[j] == ds[j] && syncTails[j] == ds[j]
    ensures forall j :: 0 <= j < |ns| ==> ds[j] !in bs[j] && ds[j].next == Nth(bs[j], ss[j]) && ss[j] <= |bs[j]|
  {
    ds := [];
    var node := first;
    var i := 0;
    while node != null
      invariant 0 <= i <= |ns| && node == NthNode(ns, i) && |ds| == i
      invariant forall j :: 0 <= j < i ==> dummyHeads[j] == ds[j] && syncTails[j] == ds[j]
      invariant forall j :: 0 <= j < i ==> ds[j] !in bs[j] && ds[j].next == Nth(bs[j], ss[j]) && ss[j] <= |bs[j]|
      decreases |ns| - i
    {
      assert ns[i].Valid();
      var d := new Block(0);
      dummyHeads[i] := d;
      syncTails[i] := d;
      d.next := node.PostSyncChain();
      ds := ds + [d];
      node := node.next;
      i := i + 1;
    }
  }

  /** The loop of `update_sync_state_teardown` over the linked nodes `ns`,
      starting at `first`: node `i` gets `syncTails[i]` as its cursor unless
      that is still its sentinel `dummyHeads[i]`. */
  method SetCursors(first: Node?, ghost ns: seq<Node>, dummyHeads: array<Block?>, syncTails: array<Block?>,
                    ghost bs: seq<seq<Block>>, ghost ss: seq<nat>, ghost k: nat)
    requires NodesLinked(ns) && first == NthNode(ns, 0)
    requires dummyHeads.Length == |ns| && syncTails.Length == |ns| && |bs| == |ns| && |ss| == |ns|
    requires forall i {:trigger ns[i].Valid()} :: 0 <= i < |ns| ==> ns[i].Valid()
    requires forall i :: 0 <= i < |ns| ==> ns[i].blocks == bs[i] && ns[i].synced == ss[i]
    requires forall i :: 0 <= i < |ns| ==> ss[i] + k <= |bs[i]| && dummyHeads[i] !in bs[i]
    requires forall i :: 0 <= i < |ns| ==> syncTails[i] == if k == 0 then dummyHeads[i] else bs[i][ss[i] + k - 1]
    modifies ns`syncTail, ns`synced
    ensures forall i {:trigger ns[i].Valid()} :: 0 <= i < |ns| ==> ns[i].Valid()
    ensures forall i :: 0 <= i < |ns| ==> ns[i].blocks == bs[i] && ns[i].synced == ss[i] + k
  {
    ghost var pos := NodesLinkedIsIndexed(ns);
    var node := first;
    var i := 0;
    while node != null
      invariant 0 <= i <= |ns| && node == NthNode(ns, i)
      invariant forall j {:trigger ns[j].Valid()} :: 0 <= j < |ns| ==> ns[j].Valid()
      invariant forall j :: 0 <= j < |ns| ==> ns[j].blocks == bs[j] && ns[j].synced == ss[j] + if j < i then k else 0
      decreases |ns| - i
    {
      assert ns[i].Valid();
      TeardownNode(node, syncTails[i], dummyHeads[i], k);
      node := node.next;
      i := i + 1;
    }
  }

  /** The loop body of `update_sync_state_teardown` for one node: when the
      walking cursor has left the node's sentinel, it has moved `k > 0`
      places and becomes the node's cursor. */
  method TeardownNode(node: Node, cursor: Block?, dummy: Block?, ghost k: nat)
    requires node.Valid() && node.synced + k <= |node.blocks| && dummy !in node.blocks
    requires cursor == if k == 0 then dummy else node.blocks[node.synced + k - 1]
    modifies node`syncTail, node`synced
    ensures node.Valid() && node.blocks == old(node.blocks) && node.synced == old(node.synced) + k
  {
    if cursor != dummy {
      node.SetSyncTail(cursor, node.synced + k);
    }
  }

  /** The loop body of `sync_nodes`: a fresh copy of the aggregation chain is
      appended to `node`, which is then declared synced. On a failed copy
      `node` is unchanged and `Failure` is returned. */
  method ReceiveCopy(node: Node, dummy: Node) returns (status: Status)
    requires node.Valid() && dummy.Valid() && dummy.blocks != [] && node != dummy && node.Repr !! dummy.Repr
    modifies node`head, node`tail, node`syncTail, node`blocks, node`synced, node`Repr, node.Repr
    ensures node.Valid() && old(node.Repr) <= node.Repr && fresh(node.Repr - old(node.Repr))
    ensures dummy.Valid()
    ensures status == Failure ==> node.blocks == old(node.blocks) && node.synced == old(node.synced)
    ensures status == Success ==> node.View() == Ledger.Receive(old(node.View()), IdsOf(dummy.blocks))
  {
    ghost var v0, agg := node.View(), IdsOf(dummy.blocks);
    var clone, copy := CloneChain(dummy.head, dummy.blocks);
    if clone == null {
      return Failure;
    }
    assert IdsOf(copy) == agg && agg != [];
    AppendSynced(node, clone, copy);
    IdsOfConcat(old(node.blocks), copy);
    assert node.View() == Ledger.NodeView(v0.id, v0.chain + agg, |v0.chain| + |agg|) == Ledger.Receive(v0, agg);
    return Success;
  }

  /** `add_chain` of the fresh copy followed by `declare_node_synced`. */
  method AppendSynced(node: Node, clone: Block, ghost copy: seq<Block>)
    requires node.Valid() && Chain(copy) && copy != [] && copy[0] == clone
    requires forall i :: 0 <= i < |copy| ==> copy[i] !in node.Repr
    modifies node`head, node`tail, node`syncTail, node`blocks, node`synced, node`Repr, node.Repr, clone
    ensures node.Valid() && node.blocks == old(node.blocks) + copy && node.synced == |node.blocks|
    ensures node.Repr == old(node.Repr) + set b | b in copy
  {
    node.AddChain(clone, copy);
    node.DeclareSynced();
  }
}
