/** The abstract ledger: what the linked structures of the registry mean, and
    what the two synchronisation passes of src/blockchain/blockchain.c do to
    that meaning. Everything here is a value; the classes in the Nodes and
    Blockchain modules are proved to follow these functions. */
module Ledger {
  import opened Types

  /** One node as seen from outside: its id, the ids of its chain from head to
      tail, and how many leading blocks are synchronised. The cursor
      `sync_tail` is the block at position `synced - 1`, or absent when
      `synced` is 0. */
  datatype NodeView = NodeView(id: uint32, chain: seq<uint32>, synced: nat)

  predicate WellFormed(v: NodeView)
  {
    v.synced <= |v.chain|
  }

  predicate AllWellFormed(vs: seq<NodeView>)
  {
    forall i :: 0 <= i < |vs| ==> WellFormed(vs[i])
  }

  /** The post-sync chain: the blocks strictly after the cursor, or the whole
      chain when there is no cursor. */
  function Pending(v: NodeView): seq<uint32>
    requires WellFormed(v)
  {
    v.chain[v.synced..]
  }

  /** The blocks up to and including the cursor. */
  function SyncedPart(v: NodeView): seq<uint32>
    requires WellFormed(v)
  {
    v.chain[..v.synced]
  }

  predicate IsEmpty(v: NodeView)
  {
    v.chain == []
  }

  /** `node_is_synced`: the cursor is on the tail (both absent for an empty node). */
  predicate LocallySynced(v: NodeView)
  {
    v.synced == |v.chain|
  }

  /** `blockchain_is_synced`: every node is empty (this includes a registry
      without nodes), or no node is empty and every node is locally synced. */
  predicate RegistrySynced(vs: seq<NodeView>)
  {
    || (forall i :: 0 <= i < |vs| ==> IsEmpty(vs[i]))
    || (forall i :: 0 <= i < |vs| ==> !IsEmpty(vs[i]) && LocallySynced(vs[i]))
  }

  // ---------------------------------------------------------------------------
  // Duplicate-free, first-occurrence merge (the aggregation buffer of
  // `synchronize`).
  // ---------------------------------------------------------------------------

  predicate NoDup(s: seq<uint32>)
  {
    forall i, j :: 0 <= i < j < |s| ==> s[i] != s[j]
  }

  /** `put_block_in_dummy_sync_node`: append `x` unless it is already present. */
  function AddNew(acc: seq<uint32>, x: uint32): seq<uint32>
  {
    if x in acc then acc else acc + [x]
  }

  /** `AddNew` of every element of `xs`, from left to right. */
  function AppendNew(acc: seq<uint32>, xs: seq<uint32>): seq<uint32>
    decreases |xs|
  {
    if xs == [] then acc else AddNew(AppendNew(acc, xs[..|xs| - 1]), xs[|xs| - 1])
  }

  lemma AppendNewSnoc(acc: seq<uint32>, xs: seq<uint32>, x: uint32)
    ensures AppendNew(acc, xs + [x]) == AddNew(AppendNew(acc, xs), x)
  {
    assert (xs + [x])[..|xs|] == xs;
  }

  /** The elements of `s` in the order of their first occurrence, each once. */
  function Dedup(s: seq<uint32>): seq<uint32>
  {
    AppendNew([], s)
  }

  function Flatten(ss: seq<seq<uint32>>): seq<uint32>
    decreases |ss|
  {
    if ss == [] then [] else Flatten(ss[..|ss| - 1]) + ss[|ss| - 1]
  }

  lemma {:induction false} AppendNewElements(acc: seq<uint32>, xs: seq<uint32>)
    ensures forall x :: x in AppendNew(acc, xs) <==> x in acc || x in xs
    ensures NoDup(acc) ==> NoDup(AppendNew(acc, xs))
    ensures acc <= AppendNew(acc, xs)
    decreases |xs|
  {
    if xs != [] {
      var init := xs[..|xs| - 1];
      AppendNewElements(acc, init);
      assert xs == init + [xs[|xs| - 1]];
    }
  }

  /** Merging `q` into the merge of `p` is the merge of `p + q`. */
  lemma {:induction false} AppendNewDedup(p: seq<uint32>, q: seq<uint32>)
    ensures AppendNew(Dedup(p), q) == Dedup(p + q)
    decreases |q|
  {
    if q == [] {
      assert p + q == p;
    } else {
      var init := q[..|q| - 1];
      AppendNewDedup(p, init);
      assert (p + q)[..|p + q| - 1] == p + init;
      assert (p + q)[|p + q| - 1] == q[|q| - 1];
    }
  }

  /** The merge holds no duplicate and exactly the elements of its input. */
  lemma DedupElements(s: seq<uint32>)
    ensures NoDup(Dedup(s))
    ensures forall x :: x in Dedup(s) <==> x in s
    ensures Dedup(s) == [] <==> s == []
  {
    AppendNewElements([], s);
    if s != [] {
      assert s[0] in Dedup(s);
    }
  }

  /** The merge keeps the order of first occurrences: an element comes before
      another in `Dedup(s)` exactly when its first occurrence in `s` comes
      first. */
  lemma {:induction false} DedupFirstOccurrenceOrder(s: seq<uint32>)
    ensures forall i, j :: 0 <= i < j < |Dedup(s)| ==> FirstIndex(s, Dedup(s)[i]) < FirstIndex(s, Dedup(s)[j])
    decreases |s|
  {
    if s != [] {
      var init := s[..|s| - 1];
      var x := s[|s| - 1];
      assert s == init + [x];
      DedupFirstOccurrenceOrder(init);
      DedupElements(init);
      var d := Dedup(init);
      var r := Dedup(s);
      assert r == AddNew(d, x);
      forall y | y in init ensures FirstIndex(s, y) == FirstIndex(init, y) {
        FirstIndexOfPrefix(init, x, y);
      }
      forall i, j | 0 <= i < j < |r| ensures FirstIndex(s, r[i]) < FirstIndex(s, r[j]) {
        assert d[i] in init;
        if j < |d| {
          assert d[j] in init;
        } else {
          FirstIndexOfPrefix(init, x, x);
        }
      }
    }
  }

  lemma {:induction false} FirstIndexOfPrefix(init: seq<uint32>, x: uint32, y: uint32)
    ensures y in init ==> FirstIndex(init + [x], y) == FirstIndex(init, y)
    ensures y !in init && y == x ==> FirstIndex(init + [x], y) == |init|
    decreases |init|
  {
    if init != [] {
      assert (init + [x])[1..] == init[1..] + [x];
      FirstIndexOfPrefix(init[1..], x, y);
    }
  }

  // ---------------------------------------------------------------------------
  // Full broadcast synchronisation (`synchronize`).
  // ---------------------------------------------------------------------------

  function Pendings(vs: seq<NodeView>): (ps: seq<seq<uint32>>)
    requires AllWellFormed(vs)
    ensures |ps| == |vs|
    ensures forall i :: 0 <= i < |vs| ==> ps[i] == Pending(vs[i])
  {
    seq(|vs|, i requires 0 <= i < |vs| => Pending(vs[i]))
  }

  /** The aggregation buffer filled by `fill_dummy_sync_node`: the pending
      blocks of every node, node after node in registry order, each id kept
      only at its first occurrence. */
  function Aggregate(vs: seq<NodeView>): seq<uint32>
    requires AllWellFormed(vs)
    decreases |vs|
  {
    if vs == [] then [] else AppendNew(Aggregate(vs[..|vs| - 1]), Pending(vs[|vs| - 1]))
  }

  /** The aggregate of the first `k` nodes. */
  function AggregateOf(vs: seq<NodeView>, k: nat): seq<uint32>
    requires AllWellFormed(vs) && k <= |vs|
  {
    Aggregate(vs[..k])
  }

  /** One node more: the aggregate of the first `i + 1` nodes merges the
      pending blocks of node `i` into the aggregate of the first `i`. */
  lemma AggregateStep(vs: seq<NodeView>, i: nat)
    requires AllWellFormed(vs) && i < |vs|
    ensures AggregateOf(vs, i + 1) == AppendNew(AggregateOf(vs, i), Pending(vs[i]))
  {
    assert vs[..i + 1][..i] == vs[..i];
  }

  /** The aggregate of all the nodes. */
  lemma AggregateOfAll(vs: seq<NodeView>)
    requires AllWellFormed(vs)
    ensures AggregateOf(vs, |vs|) == Aggregate(vs)
  {
    assert vs[..|vs|] == vs;
  }

  /** The aggregate is the duplicate-free, first-occurrence merge of the
      concatenation of all pending suffixes in registry order. */
  lemma {:induction false} AggregateIsDedup(vs: seq<NodeView>)
    requires AllWellFormed(vs)
    ensures Aggregate(vs) == Dedup(Flatten(Pendings(vs)))
    decreases |vs|
  {
    if vs != [] {
      var init := vs[..|vs| - 1];
      AggregateIsDedup(init);
      assert Pendings(vs)[..|vs| - 1] == Pendings(init);
      AppendNewDedup(Flatten(Pendings(init)), Pending(vs[|vs| - 1]));
    }
  }

  lemma {:induction false} FlattenEmpty(ss: seq<seq<uint32>>)
    ensures Flatten(ss) == [] <==> forall i :: 0 <= i < |ss| ==> ss[i] == []
    decreases |ss|
  {
    if ss != [] {
      var init := ss[..|ss| - 1];
      FlattenEmpty(init);
      assert Flatten(ss) == Flatten(init) + ss[|ss| - 1];
      assert forall i :: 0 <= i < |init| ==> init[i] == ss[i];
    }
  }

  /** The aggregate is empty exactly when no node has a pending block. */
  lemma AggregateEmpty(vs: seq<NodeView>)
    requires AllWellFormed(vs)
    ensures Aggregate(vs) == [] <==> forall i :: 0 <= i < |vs| ==> Pending(vs[i]) == []
  {
    AggregateIsDedup(vs);
    DedupElements(Flatten(Pendings(vs)));
    FlattenEmpty(Pendings(vs));
  }

  /** A node whose post-sync chain has been removed. */
  function Strip(v: NodeView): NodeView
    requires WellFormed(v)
  {
    v.(chain := SyncedPart(v))
  }

  /** Taking the aggregate in `sync_nodes`: a non-empty aggregate is appended
      and the node is declared synced; an empty one changes nothing. */
  function Receive(v: NodeView, agg: seq<uint32>): NodeView
  {
    if agg == [] then v else NodeView(v.id, v.chain + agg, |v.chain| + |agg|)
  }

  /** `synchronize` when no allocation fails: every node loses its post-sync
      chain; then, unless the aggregate is empty, every node gets a copy of the
      aggregate appended and is declared synced. */
  function Broadcast(vs: seq<NodeView>): (r: seq<NodeView>)
    requires AllWellFormed(vs)
    ensures |r| == |vs| && AllWellFormed(r)
  {
    ReceiveAll(StripAll(vs), Aggregate(vs))
  }

  /** The first phase of `synchronize` on every node. */
  function StripAll(vs: seq<NodeView>): (r: seq<NodeView>)
    requires AllWellFormed(vs)
    ensures |r| == |vs| && AllWellFormed(r)
  {
    seq(|vs|, i requires 0 <= i < |vs| => Strip(vs[i]))
  }

  /** The second phase of `synchronize` on every node. */
  function ReceiveAll(vs: seq<NodeView>, agg: seq<uint32>): (r: seq<NodeView>)
    ensures |r| == |vs|
    ensures AllWellFormed(vs) ==> AllWellFormed(r)
  {
    seq(|vs|, i requires 0 <= i < |vs| => Receive(vs[i], agg))
  }

  /** The views part-way through the first phase: the first `i` nodes are
      stripped, the others untouched. */
  function StripFirst(vs: seq<NodeView>, i: nat): (r: seq<NodeView>)
    requires AllWellFormed(vs) && i <= |vs|
    ensures |r| == |vs|
    ensures forall j :: 0 <= j < |vs| ==> r[j] == if j < i then Strip(vs[j]) else vs[j]
  {
    seq(|vs|, j requires 0 <= j < |vs| => if j < i then Strip(vs[j]) else vs[j])
  }

  /** Stripping node `i` extends the stripped prefix by one. */
  lemma StripFirstStep(vs: seq<NodeView>, i: nat)
    requires AllWellFormed(vs) && i < |vs|
    ensures StripFirst(vs, i)[i := Strip(vs[i])] == StripFirst(vs, i + 1)
  {
  }

  /** With no node stripped the views are unchanged; with all stripped the
      first phase is done. */
  lemma StripFirstEnds(vs: seq<NodeView>)
    requires AllWellFormed(vs)
    ensures StripFirst(vs, 0) == vs
    ensures StripFirst(vs, |vs|) == StripAll(vs)
  {
  }

  /** The views part-way through the second phase: the first `i` nodes have
      received the aggregate, the others are untouched. */
  function ReceiveFirst(vs: seq<NodeView>, agg: seq<uint32>, i: nat): (r: seq<NodeView>)
    requires i <= |vs|
    ensures |r| == |vs|
    ensures forall j :: 0 <= j < |vs| ==> r[j] == if j < i then Receive(vs[j], agg) else vs[j]
  {
    seq(|vs|, j requires 0 <= j < |vs| => if j < i then Receive(vs[j], agg) else vs[j])
  }

  /** Serving node `i` extends the served prefix by one. */
  lemma ReceiveFirstStep(vs: seq<NodeView>, agg: seq<uint32>, i: nat)
    requires i < |vs|
    ensures ReceiveFirst(vs, agg, i)[i := Receive(vs[i], agg)] == ReceiveFirst(vs, agg, i + 1)
  {
  }

  /** With no node served the views are unchanged; with all served the second
      phase is done. */
  lemma ReceiveFirstEnds(vs: seq<NodeView>, agg: seq<uint32>)
    ensures ReceiveFirst(vs, agg, 0) == vs
    ensures ReceiveFirst(vs, agg, |vs|) == ReceiveAll(vs, agg)
  {
  }

  /** What a successful broadcast does to each node: it keeps its id and its
      blocks up to the cursor, then holds the aggregate, and is locally synced
      whenever the aggregate is not empty. */
  lemma BroadcastShape(vs: seq<NodeView>, i: nat)
    requires AllWellFormed(vs) && i < |vs|
    ensures Broadcast(vs)[i].id == vs[i].id
    ensures Broadcast(vs)[i].chain == SyncedPart(vs[i]) + Aggregate(vs)
    ensures Aggregate(vs) != [] ==> LocallySynced(Broadcast(vs)[i]) && !IsEmpty(Broadcast(vs)[i])
    ensures Aggregate(vs) == [] ==> Broadcast(vs)[i] == vs[i]
  {
    var agg := Aggregate(vs);
    var v := vs[i];
    assert StripAll(vs)[i] == Strip(v);
    assert Broadcast(vs)[i] == Receive(Strip(v), agg);
    if agg == [] {
      AggregateEmpty(vs);
      assert Pending(v) == [];
      assert v.chain == SyncedPart(v) + Pending(v);
    }
  }

  /** When no node has pending blocks, `synchronize` changes nothing. */
  lemma BroadcastWithoutPendingIsIdentity(vs: seq<NodeView>)
    requires AllWellFormed(vs)
    requires forall i :: 0 <= i < |vs| ==> Pending(vs[i]) == []
    ensures Broadcast(vs) == vs
  {
    AggregateEmpty(vs);
    forall i | 0 <= i < |vs| ensures Broadcast(vs)[i] == vs[i] {
      BroadcastShape(vs, i);
    }
  }

  /** `synchronize` is idempotent: a second pass finds nothing pending. */
  lemma BroadcastIdempotent(vs: seq<NodeView>)
    requires AllWellFormed(vs)
    ensures Broadcast(Broadcast(vs)) == Broadcast(vs)
  {
    var r := Broadcast(vs);
    forall i | 0 <= i < |r| ensures Pending(r[i]) == [] {
      BroadcastShape(vs, i);
      if Aggregate(vs) == [] {
        AggregateEmpty(vs);
      }
    }
    BroadcastWithoutPendingIsIdentity(r);
  }

  /** After a broadcast that had something to spread, the registry is synced,
      and nodes that agreed up to their cursors now hold identical chains. */
  lemma BroadcastSynchronises(vs: seq<NodeView>)
    requires AllWellFormed(vs) && Aggregate(vs) != []
    ensures RegistrySynced(Broadcast(vs))
    ensures forall i, j :: 0 <= i < |vs| && 0 <= j < |vs| && SyncedPart(vs[i]) == SyncedPart(vs[j]) ==>
              Broadcast(vs)[i].chain == Broadcast(vs)[j].chain
  {
    forall i | 0 <= i < |vs|
      ensures !IsEmpty(Broadcast(vs)[i]) && LocallySynced(Broadcast(vs)[i])
      ensures Broadcast(vs)[i].chain == SyncedPart(vs[i]) + Aggregate(vs)
    {
      BroadcastShape(vs, i);
    }
  }

  /** A full sync does not leave identical chains: node 2 keeps the block 1
      its cursor covers, while node 1, with nothing synchronised, gets only
      the pending block 2. */
  lemma BroadcastKeepsDifferentChains()
    ensures var vs := [NodeView(1, [], 0), NodeView(2, [1, 2], 1)];
      && AllWellFormed(vs) && Aggregate(vs) == [2]
      && Broadcast(vs)[0].chain == [2] && Broadcast(vs)[1].chain == [1, 2]
  {
    var vs := [NodeView(1, [], 0), NodeView(2, [1, 2], 1)];
    assert Pending(vs[0]) == [] && Pending(vs[1]) == [2];
    assert vs[..1] == [vs[0]] && [vs[0]][..0] == [];
    assert Aggregate(vs) == AppendNew(AppendNew([], []), [2]);
    assert AppendNew([], [2]) == AddNew(AppendNew([], []), 2);
    assert SyncedPart(vs[0]) == [] && SyncedPart(vs[1]) == [1];
  }

  /** A full sync with nothing pending changes nothing, so a registry with an
      empty node beside a synced one stays unsynchronised. */
  lemma BroadcastLeavesUnsynced()
    ensures var vs := [NodeView(1, [1], 1), NodeView(2, [], 0)];
      && AllWellFormed(vs) && Broadcast(vs) == vs && !RegistrySynced(Broadcast(vs))
  {
    var vs := [NodeView(1, [1], 1), NodeView(2, [], 0)];
    assert Pending(vs[0]) == [] && Pending(vs[1]) == [];
    BroadcastWithoutPendingIsIdentity(vs);
    assert !IsEmpty(vs[0]) && IsEmpty(vs[1]);
  }

  // ---------------------------------------------------------------------------
  // Incremental sync-state advance (`update_sync_state`).
  // ---------------------------------------------------------------------------

  /** All pending suffixes have a block at position `k`, and all those blocks
      carry the same id. */
  predicate AgreeAt(ps: seq<seq<uint32>>, k: nat)
    requires |ps| > 0
  {
    && k < |ps[0]|
    && forall i :: 0 <= i < |ps| ==> k < |ps[i]| && ps[i][k] == ps[0][k]
  }

  /** The first `k` positions all agree. */
  predicate AgreeUpTo(ps: seq<seq<uint32>>, k: nat)
    requires |ps| > 0
  {
    forall j :: 0 <= j < k ==> AgreeAt(ps, j)
  }

  /** The lockstep walk of `sync_tails_can_advance`/`advance_sync_tails`,
      started at position `k`. */
  function CommonFrom(ps: seq<seq<uint32>>, k: nat): nat
    requires |ps| > 0
    decreases |ps[0]| - k
  {
    if k < |ps[0]| && AgreeAt(ps, k) then CommonFrom(ps, k + 1) else k
  }

  function CommonPrefixLength(ps: seq<seq<uint32>>): nat
    requires |ps| > 0
  {
    CommonFrom(ps, 0)
  }

  lemma {:induction false} CommonFromAgrees(ps: seq<seq<uint32>>, k: nat)
    requires |ps| > 0 && AgreeUpTo(ps, k)
    ensures k <= CommonFrom(ps, k)
    ensures AgreeUpTo(ps, CommonFrom(ps, k))
    ensures !AgreeAt(ps, CommonFrom(ps, k))
    decreases |ps[0]| - k
  {
    if k < |ps[0]| && AgreeAt(ps, k) {
      CommonFromAgrees(ps, k + 1);
    }
  }

  /** `update_sync_state` advances by the largest `k` such that all pending
      suffixes have `k` blocks and agree on each of the first `k` ids. */
  lemma CommonPrefixLengthIsLargest(ps: seq<seq<uint32>>, k: nat)
    requires |ps| > 0
    ensures AgreeUpTo(ps, k) <==> k <= CommonPrefixLength(ps)
  {
    var n := CommonPrefixLength(ps);
    CommonFromAgrees(ps, 0);
    if k > n {
      assert !AgreeAt(ps, n);
    }
  }

  /** Every pending suffix is at least as long as the common prefix. */
  lemma CommonPrefixFits(ps: seq<seq<uint32>>, i: nat)
    requires |ps| > 0 && i < |ps|
    ensures CommonPrefixLength(ps) <= |ps[i]|
  {
    var n := CommonPrefixLength(ps);
    CommonFromAgrees(ps, 0);
    if n > 0 {
      assert AgreeAt(ps, n - 1);
    }
  }

  /** `update_sync_state`: with no node nothing happens; otherwise every
      cursor moves forward by the common prefix length of the pending
      suffixes. */
  function Advance(vs: seq<NodeView>): (r: seq<NodeView>)
    requires AllWellFormed(vs)
    ensures |r| == |vs| && AllWellFormed(r)
    ensures forall i :: 0 <= i < |vs| ==> r[i].id == vs[i].id && r[i].chain == vs[i].chain && r[i].synced >= vs[i].synced
  {
    if vs == [] then vs
    else
      var k := CommonPrefixLength(Pendings(vs));
      assert forall i :: 0 <= i < |vs| ==> k <= |Pending(vs[i])| by {
        forall i | 0 <= i < |vs| ensures k <= |Pending(vs[i])| {
          CommonPrefixFits(Pendings(vs), i);
        }
      }
      seq(|vs|, i requires 0 <= i < |vs| => vs[i].(synced := vs[i].synced + k))
  }

  /** The blocks newly covered by the cursors carry the same ids on every
      node. */
  lemma AdvanceAgrees(vs: seq<NodeView>)
    requires AllWellFormed(vs) && vs != []
    ensures var r := Advance(vs);
      forall i :: 0 <= i < |vs| ==>
        r[i].chain[vs[i].synced..r[i].synced] == r[0].chain[vs[0].synced..r[0].synced]
  {
    var ps := Pendings(vs);
    var k := CommonPrefixLength(ps);
    var r := Advance(vs);
    CommonFromAgrees(ps, 0);
    forall i | 0 <= i < |vs|
      ensures r[i].chain[vs[i].synced..r[i].synced] == r[0].chain[vs[0].synced..r[0].synced]
    {
      CommonPrefixFits(ps, i);
      CommonPrefixFits(ps, 0);
      forall j | 0 <= j < k
        ensures r[i].chain[vs[i].synced..r[i].synced][j] == r[0].chain[vs[0].synced..r[0].synced][j]
      {
        assert AgreeAt(ps, j);
      }
    }
  }

  /** The advance stops where some node runs out of pending blocks or two
      nodes disagree: one more lockstep step is impossible afterwards. */
  lemma AdvanceStops(vs: seq<NodeView>)
    requires AllWellFormed(vs) && vs != []
    ensures !AgreeAt(Pendings(Advance(vs)), 0)
  {
    var ps := Pendings(vs);
    var k := CommonPrefixLength(ps);
    var r := Advance(vs);
    forall i | 0 <= i < |vs| ensures k <= |ps[i]| && Pendings(r)[i] == ps[i][k..] {
      CommonPrefixFits(ps, i);
    }
    assert AgreeAt(Pendings(r), 0) ==> AgreeAt(ps, k) by {
      if AgreeAt(Pendings(r), 0) {
        forall i | 0 <= i < |vs| ensures k < |ps[i]| && ps[i][k] == ps[0][k] {
          assert 0 < |Pendings(r)[i]| && Pendings(r)[i][0] == Pendings(r)[0][0];
        }
      }
    }
    CommonFromAgrees(ps, 0);
  }

  /** With a single node the advance reaches its tail. */
  lemma AdvanceSingleNodeSynchronises(v: NodeView)
    requires WellFormed(v)
    ensures LocallySynced(Advance([v])[0])
  {
    var ps := Pendings([v]);
    assert forall j :: 0 <= j < |ps[0]| ==> AgreeAt(ps, j);
    CommonFromAgrees(ps, 0);
  }

  /** `desync`: every cursor is cleared, nothing else changes. */
  function Desync(vs: seq<NodeView>): seq<NodeView>
  {
    seq(|vs|, i requires 0 <= i < |vs| => vs[i].(synced := 0))
  }

  /** After `desync` every node keeps its id and chain, and its whole chain is
      pending again. */
  lemma DesyncMakesAllPending(vs: seq<NodeView>)
    ensures |Desync(vs)| == |vs| && AllWellFormed(Desync(vs))
    ensures forall i :: 0 <= i < |vs| ==>
      Desync(vs)[i].id == vs[i].id && Desync(vs)[i].chain == vs[i].chain && Pending(Desync(vs)[i]) == vs[i].chain
  {
  }
}
