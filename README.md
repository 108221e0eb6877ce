# my_blockchain core, modelled in Dafny

my_blockchain keeps a registry of nodes, and each node keeps a chain of
blocks. A block has an unsigned 32-bit id. Each node has a *sync tail*: a
cursor on the last block known to be synchronised. The blocks after the
cursor are its *post-sync chain*.

Two operations synchronise the registry:
- `synchronize` strips every post-sync chain into a scratch node. The scratch
  node keeps each id once, in first-seen order. A copy of it is then appended
  to every node, and every node is declared synced.
- `update_sync_state` moves all cursors forward together for as long as the
  next blocks of every node carry the same id.

Commands reach the program as text lines. The parser splits a line into
space-separated tokens with its own `_strsep` and fills a `Command` record.

The project is split into modules that follow the source:

| module | file | source |
|---|---|---|
| `Types` | types.dfy | `uint32`; `FirstIndex` and `Without` on sequences |
| `Blocks` | block.dfy | `src/blockchain/node/block/block.c` |
| `Nodes` | node.dfy | `src/blockchain/node/node.c` |
| `Ledger` | ledger.dfy | a value-level specification of the registry and its two synchronisation passes |
| `Blockchain` | blockchain.dfy | `src/blockchain/blockchain.c` |
| `CString` | cstring.dfy | `src/utils/_string.c` |
| `Parse` | parse.dfy | `src/parse.c`, and `new_cmd` from `src/command.c` |

Blocks, nodes and the registry are classes, and their pointer fields are
updated in place. Each node has a ghost sequence `blocks` that follows its
`next` links, and a ghost count `synced` of the blocks up to and including
its cursor. The registry has a ghost sequence `nodes`. `View()` maps the heap
state to a `Ledger.NodeView` per node: the id, the chain's block ids and
`synced`. Every registry method is proved against a function of `Ledger`, and
`Ledger` proves what those functions mean.

The string helpers work on `array<char>` buffers with an explicit start index.
The parser is proved against `Parse.ParseLine`, a function over the line's
token list (`CString.Tokens`). The acceptance rules of each command are lemmas
about that function.

## Model

| member | source | states |
|---|---|---|
| Blocks.Block.constructor | src/blockchain/node/block/block.c:31-35 | a block value with the given id and no neighbours |
| Blocks.NewBlock | src/blockchain/node/block/block.c:7-15 | either null (the allocation failed) or a fresh block with the id and both links null |
| Blocks.CloneBlock | src/blockchain/node/block/block.c:37-44 | on success a fresh block with the original's id, linked after `prev` as its last successor; on failure `prev` keeps its old successor |
| Blocks.CloneChain | src/blockchain/node/block/block.c:17-29 | on success a well-linked chain of fresh blocks with the same ids in the same order as the source chain, so that no block is shared |
| Blocks.GetChainTail | src/blockchain/node/block/block.c:46-52 | the last block of the chain that starts at `head` |
| Blocks.Unlink | src/blockchain/node/node.c:97-98 | the neighbours of the block are linked to each other |
| Blocks.LinkedAfterRemoval | src/blockchain/node/node.c:96-102 | relinking the neighbours of position k, with the head and tail cases, leaves a correctly linked chain of the other blocks in the same order |
| Blocks.LinkedIsAcyclic | src/blockchain/node/block/block.c:46-52 | a chain linked by `next`/`prev` with null ends visits no block twice |
| Nodes.Node.constructor | src/blockchain/node/node.c:24-35 | `create_node`: a node with the id, no blocks, no cursor and no neighbours |
| Nodes.NewNode | src/blockchain/node/node.c:14-22 | either null or a fresh, valid, empty node with the id and no cursor |
| Nodes.Node.IsEmpty | src/blockchain/node/node.c:137-140 | true exactly when the node has no block |
| Nodes.Node.HasOneBlock | src/blockchain/node/node.c:142-145 | true exactly when the node has at most one block |
| Nodes.Node.IsSynced | src/blockchain/node/node.c:127-130 | true exactly when the cursor is on the last block, which is the `Ledger.LocallySynced` predicate on the node's view |
| Nodes.Node.DeclareSynced | src/blockchain/node/node.c:132-135 | the cursor moves onto the tail and every block counts as synced; the chain is unchanged |
| Nodes.Node.PostSyncChain | src/blockchain/node/node.c:66-69 | the first block after the cursor, or the head when there is no cursor, or null when nothing is pending |
| Nodes.Node.GetBlockFromId | src/blockchain/node/node.c:42-49 | the first block in chain order that carries the id, or null when none does |
| Nodes.Node.HasBlockWithId | src/blockchain/node/node.c:37-40 | true exactly when some block of the chain carries the id |
| Nodes.Node.AddBlock | src/blockchain/node/node.c:51-64 | the chain becomes the old chain followed by the new block; the cursor is unchanged |
| Nodes.Node.AddChain | src/blockchain/node/node.c:71-87 | the chain becomes the old chain followed by every block of the added chain, in order; the cursor is unchanged |
| Nodes.Node.RmvBlock | src/blockchain/node/node.c:89-104 | exactly that block leaves the chain and the others keep their order; the cursor keeps its block, or moves to the predecessor (none at the head) when it was on the removed block; an empty node stays empty |
| Nodes.Node.RemoveAt | src/blockchain/node/node.c:96-103 | with two or more blocks: the chain loses position k, and the synced count drops by one exactly when k was at or before the cursor |
| Nodes.Node.Unsplice | src/blockchain/node/node.c:97-101 | the unlinked chain is correctly linked, and a cursor on the removed block moves to its predecessor |
| Nodes.Node.AttachSentinels | src/blockchain/node/node.c:106-113 | the two sentinels sit before the head and after the tail |
| Nodes.Node.DetachSentinels | src/blockchain/node/node.c:115-125 | head and tail are read back from the sentinels with null outer links; a cursor left on the head sentinel becomes null |
| Nodes.CursorAfterRemoval | src/blockchain/node/node.c:99-121 | the pointer rule for the cursor and the count rule for `synced` name the same block after a removal |
| Nodes.Node.SetSyncTail | src/blockchain/blockchain.c:239-241 | the cursor is placed on block n, so the first n blocks are synced; the chain is unchanged |
| Nodes.Node.ClearCursor | src/blockchain/blockchain.c:64 | the cursor is cleared, so nothing is synced; the chain is unchanged |
| Blockchain.Registry.constructor | src/blockchain/blockchain.c:6-12 | the static registry starts with no nodes |
| Blockchain.Registry.GetNodes | src/blockchain/blockchain.c:14-17 | the first node, or null in an empty registry |
| Blockchain.Registry.GetNumNodes | src/blockchain/blockchain.c:109-112 | the number of nodes, which is also the length of the view |
| Blockchain.Registry.IsEmpty | src/blockchain/blockchain.c:49-52 | true exactly when there is no node |
| Blockchain.Registry.GetNodeFromId | src/blockchain/blockchain.c:24-31 | the first node in registry order with the id, or null |
| Blockchain.Registry.HasNodeWithId | src/blockchain/blockchain.c:19-22 | true exactly when some node carries the id |
| Blockchain.Registry.Desync | src/blockchain/blockchain.c:60-67 | every cursor is cleared and every chain is kept |
| Blockchain.Registry.AddNode | src/blockchain/blockchain.c:37-47 | the node is appended at the tail; when the registry was not empty, every earlier node loses its cursor (`Ledger.Desync`); the new node keeps its own |
| Blockchain.Registry.AddFirstNode | src/blockchain/blockchain.c:54-58 | the registry holds exactly the node |
| Blockchain.Registry.LinkAtTail | src/blockchain/blockchain.c:44-46 | the node becomes the last one and the registry stays well linked and owned |
| Blockchain.Registry.RmvNode | src/blockchain/blockchain.c:72-86 | exactly that node's entry leaves the view, and the others keep their order and contents |
| Blockchain.Registry.Clear | src/blockchain/blockchain.c:74-78 | the registry becomes empty |
| Blockchain.Registry.RemoveNodeAt | src/blockchain/blockchain.c:80-85 | with two or more nodes, the list loses position k |
| Blockchain.Registry.UnspliceNode | src/blockchain/blockchain.c:81-83 | the node list without position k is correctly linked, with the right head and tail |
| Blockchain.Registry.AttachSentinels | src/blockchain/blockchain.c:91-98 | the two sentinel nodes sit before the head and after the tail |
| Blockchain.Registry.DetachSentinels | src/blockchain/blockchain.c:100-107 | head and tail are read back from the sentinels with null outer links |
| Blockchain.UnlinkNode | src/blockchain/blockchain.c:81-82 | the neighbours of the node are linked to each other |
| Blockchain.Registry.AllNodesAreEmpty | src/blockchain/blockchain.c:131-141 | true exactly when every node has an empty chain |
| Blockchain.Registry.BlockchainIsSynced | src/blockchain/blockchain.c:116-129 | equals `Ledger.RegistrySynced`: every node is empty, or every node is non-empty with its cursor on its tail |
| Blockchain.Registry.Synchronize | src/blockchain/blockchain.c:148-154 | on success the view is `Ledger.Broadcast` of the old view; the set of nodes never changes |
| Blockchain.Registry.FillAndSync | src/blockchain/blockchain.c:151 | filling, and then syncing when the fill succeeded, gives `Ledger.Broadcast` of the view |
| Blockchain.Registry.FillDummySyncNode | src/blockchain/blockchain.c:156-166 | on success the scratch node holds `Ledger.Aggregate` of the view, and every node has lost its post-sync chain (`Ledger.StripAll`) |
| Blockchain.Registry.FillLoop | src/blockchain/blockchain.c:158-165 | after every node, the nodes are stripped and the scratch node holds the aggregate |
| Blockchain.Registry.FillStep | src/blockchain/blockchain.c:160-163 | one more node is stripped, and its pending ids are added to the scratch node |
| Blockchain.PutNodeContent | src/blockchain/blockchain.c:168-180 | on success the node keeps only its synced part, and the scratch node gains, in order, each pending id it did not hold yet |
| Blockchain.DrainLoop | src/blockchain/blockchain.c:170-179 | after n rounds the node has lost the n blocks after its cursor and the scratch node holds the new ids among them |
| Blockchain.DrainStep | src/blockchain/blockchain.c:172-177 | one round of the drain loop: the next post-sync block moves out |
| Blockchain.MovePostSyncBlock | src/blockchain/blockchain.c:172-177 | the first post-sync block leaves the node, its id is added to the scratch node unless already there, and the next post-sync block is returned |
| Blockchain.DrainedAll | src/blockchain/blockchain.c:170-179 | draining every post-sync block is `Ledger.Strip` on the node and `Ledger.AppendNew` of its pending ids on the scratch node |
| Blockchain.PutBlockInDummy | src/blockchain/blockchain.c:182-190 | on success the scratch node gains the id unless it already held it (`Ledger.AddNew`); on failure it is unchanged |
| Blockchain.Registry.SyncNodes | src/blockchain/blockchain.c:192-204 | on success every node's view is `Ledger.Receive` of the scratch node's ids |
| Blockchain.Registry.SyncLoop | src/blockchain/blockchain.c:195-203 | after the loop every node has received the aggregate |
| Blockchain.Registry.SyncStep | src/blockchain/blockchain.c:196-201 | one more node has received the aggregate and the others are untouched |
| Blockchain.Registry.ReceiveInto | src/blockchain/blockchain.c:197-200 | only node k's entry of the view changes, and on success it becomes `Ledger.Receive` of the aggregate |
| Blockchain.ReceiveCopy | src/blockchain/blockchain.c:197-200 | on success the node holds its old chain followed by a copy of the aggregate and is synced; on failure it is unchanged |
| Blockchain.AppendSynced | src/blockchain/blockchain.c:199-200 | the copied chain is appended and the cursor moves to the new tail |
| Blockchain.Registry.UpdateSyncState | src/blockchain/blockchain.c:211-221 | the view becomes `Ledger.Advance` of the old view: chains are kept and every cursor moves by the same, largest possible, agreeing length |
| Blockchain.Registry.AdvanceCursors | src/blockchain/blockchain.c:214-220 | every cursor moves forward by the common prefix length of the pending suffixes |
| Blockchain.Registry.Walk | src/blockchain/blockchain.c:216-219 | after setup and the advance loop, the walking cursors stand the common prefix length past the old cursors |
| Blockchain.Registry.AdvanceWhilePossible | src/blockchain/blockchain.c:217-219 | the advance loop stops after exactly the common prefix length of the pending suffixes |
| Blockchain.Registry.SetupCursors | src/blockchain/blockchain.c:223-232 | every walking cursor is a fresh sentinel whose successor is the node's first pending block |
| Blockchain.MakeSentinels | src/blockchain/blockchain.c:227-231 | one sentinel per node, outside its chain and pointing at its first pending block |
| Blockchain.Registry.SyncTailsCanAdvance | src/blockchain/blockchain.c:246-260 | true exactly when every node has a k-th pending block and all of them carry the same id |
| Blockchain.Registry.AdvanceSyncTails | src/blockchain/blockchain.c:262-267 | every walking cursor moves one block forward |
| Blockchain.Registry.Teardown | src/blockchain/blockchain.c:234-244 | each node's cursor ends k blocks further, and is unchanged when k is 0 |
| Blockchain.SetCursors | src/blockchain/blockchain.c:238-243 | the teardown loop over the node list moves each cursor by k |
| Blockchain.TeardownNode | src/blockchain/blockchain.c:239-241 | one node's cursor moves k blocks forward, and stays put when the walking cursor is still the sentinel |
| Blockchain.Registry.ViewAfterAdvance | src/blockchain/blockchain.c:211-221 | cursors moved by the common prefix length are exactly `Ledger.Advance` |
| Ledger.AggregateIsDedup | src/blockchain/blockchain.c:156-190 | the scratch node's ids are the concatenation of all pending suffixes in registry order, each id kept only at its first occurrence |
| Ledger.DedupElements | src/blockchain/blockchain.c:182-190 | the aggregate has no duplicate, holds exactly the ids that occur, and is empty only for empty input |
| Ledger.DedupFirstOccurrenceOrder | src/blockchain/blockchain.c:182-190 | the aggregate lists ids in the order of their first occurrence |
| Ledger.AppendNewElements | src/blockchain/blockchain.c:184-188 | adding ids one at a time unless present keeps what was there, adds what was missing and creates no duplicate |
| Ledger.AggregateEmpty | src/blockchain/blockchain.c:192-194 | the aggregate is empty exactly when no node has a pending block |
| Ledger.BroadcastShape | src/blockchain/blockchain.c:148-204 | after a sync each node holds its synced part followed by the aggregate and is synced and non-empty; with an empty aggregate it is unchanged |
| Ledger.BroadcastWithoutPendingIsIdentity | src/blockchain/blockchain.c:192-194 | a sync with nothing pending changes nothing |
| Ledger.BroadcastIdempotent | src/blockchain/blockchain.c:148-154 | a second sync right after the first changes nothing |
| Ledger.BroadcastSynchronises | src/blockchain/blockchain.c:116-204 | when something was pending, the registry is synced after a sync, and nodes that shared their synced part end with identical chains |
| Ledger.BroadcastKeepsDifferentChains | src/blockchain/blockchain.c:192-204 | nodes 1:[] and 2:[1,2] with one block synced on node 2 end with the different chains [2] and [1,2] |
| Ledger.BroadcastLeavesUnsynced | src/blockchain/blockchain.c:116-129 | node 1:[1] synced and node 2:[] have nothing pending, so a sync leaves them as they are and not synced |
| Ledger.CommonPrefixLengthIsLargest | src/blockchain/blockchain.c:246-260 | the pending suffixes agree on their first k ids exactly when k is at most the common prefix length |
| Ledger.AdvanceAgrees | src/blockchain/blockchain.c:217-219 | the blocks newly covered by the cursors carry the same ids on every node |
| Ledger.AdvanceStops | src/blockchain/blockchain.c:246-260 | after the advance, the next pending blocks no longer all agree |
| Ledger.AdvanceSingleNodeSynchronises | src/blockchain/blockchain.c:211-221 | a registry of one node is synced after the advance |
| Ledger.DesyncMakesAllPending | src/blockchain/blockchain.c:60-67 | after a desync every block of every node is pending, and ids and chains are kept |
| CString.StartsWith | src/utils/_string.c:3-6 | true exactly when the pointer is non-null and the string's first character is c |
| CString.Strlen | src/utils/_string.c:8-13 | the number of characters before the first NUL |
| CString.Strchr | src/utils/_string.c:15-22 | the index of the first character whose signed code is c, or none |
| CString.Strcmp | src/utils/_string.c:24-28 | the signed difference at the first position where the strings differ, or 0 |
| CString.CompareZeroIffEqual | src/utils/_string.c:24-28 | the comparison is 0 exactly when the strings are equal |
| CString.CompareAntisymmetric | src/utils/_string.c:24-28 | swapping the arguments negates the result |
| CString.Strncmp | src/utils/_string.c:30-39 | the comparison of the first n characters |
| CString.CompareUpToZeroIff | src/utils/_string.c:30-39 | the bounded comparison is 0 exactly when the first n characters agree |
| CString.Strcpy | src/utils/_string.c:41-50 | the destination holds the source string and its NUL; every other character is unchanged |
| CString.Strncpy | src/utils/_string.c:52-64 | exactly `num` characters are written: the source padded with NULs |
| CString.PaddedTerminated | src/utils/_string.c:52-64 | the copy is NUL-terminated exactly when the source is shorter than `num` |
| CString.Strcat | src/utils/_string.c:66-76 | the destination string becomes the old string followed by the source, with every other character unchanged |
| CString.Scan | src/utils/_string.c:89-91 | stops at the first delimiter, or at the NUL when the string has none |
| CString.SkipRun | src/utils/_string.c:97-99 | moves past the whole run of delimiters |
| CString.Strsep | src/utils/_string.c:84-101 | no token on an empty string; otherwise the token up to the first delimiter, cut by one NUL in the buffer, with the position moved past the run of delimiters or left at the final NUL |
| CString.SepStringsCut | src/utils/_string.c:92-99 | with a delimiter, only the first delimiter becomes NUL, the token is what came before it, and the rest starts after the run |
| CString.TokenRestSplit | src/utils/_string.c:95-99 | the characters between the token and the rest are all delimiters |
| CString.TokensAfterDrop | src/utils/_string.c:84-101 | taking k tokens leaves exactly the remaining tokens of the line |
| Parse.Command.constructor | src/command.c:34-43 | the zero-initialised command: undefined, no flags, no lists |
| Parse.ToUint32 | src/parse.c:136 | the stored id is the value of `strtol` modulo 2^32 |
| Parse.ScanArgsWellformed | src/parse.c:124-138 | the filling loop meets no bad token exactly when every token is `*` or numeric, and it then stores the numbers in order and sets `all` exactly when a `*` was seen |
| Parse.ScanArgsStops | src/parse.c:131-135 | a bad token is the last one taken off the line |
| Parse.ScanArgsAfterBad | src/parse.c:131-135 | nothing after a bad token changes the outcome |
| Parse.IdListWellformed | src/parse.c:99-146 | on good tokens every token up to the limit is taken, the numbers are stored and counted, and the command and the other list are unchanged |
| Parse.IdListBad | src/parse.c:131-143 | a bad token makes the command undefined and leaves both counts as they were |
| Parse.UndefinedStays | src/parse.c:131-135 | nothing in the id-list parser makes an undefined command defined again |
| Parse.IdsInFromNumbers | src/parse.c:132-137 | every stored id comes from a numeric token, and some id is stored exactly when some token is numeric |
| Parse.AddNodeAccepts | src/parse.c:38-43 | `add node` is accepted exactly when every id is `*` or numeric and one is numeric; the list then holds those numbers |
| Parse.AddBlockAccepts | src/parse.c:44-50 | `add block` is accepted exactly when a numeric bid is followed by one or more tokens that are all `*` or numeric |
| Parse.RmNodeAccepts | src/parse.c:64-69 | `rm node` is accepted exactly when at least one id is given and every one is `*` or numeric |
| Parse.RmBlockAccepts | src/parse.c:70-75 | `rm block` is accepted exactly when every bid is `*` or numeric and one is numeric |
| Parse.LsSetsFlag | src/parse.c:151-162 | `ls` sets LS, and sets `lflag` exactly when the next token is `-l` |
| Parse.Dispatch | src/parse.c:164-191 | `sync` and `quit` set their command and change nothing else; an unknown first token leaves the command unchanged |
| Parse.UnknownObject | src/parse.c:33-78 | `add` or `rm` followed by nothing, or by a word other than `node` or `block`, leaves the command unchanged |
| Parse.TakeToken | src/parse.c:36-37 | `_strsep` on the line yields its next token and leaves the others, or yields nothing when none is left |
| Parse.Matches | src/parse.c:38 | the `_strcmp` test is true exactly when the token is the literal |
| Parse.CountTokens | src/parse.c:110-117 | the count of tokens on a copy of the line, without consuming the line |
| Parse.NextArg | src/parse.c:125-135 | the next token, classified as `*`, a number or bad |
| Parse.ParseIdList | src/parse.c:99-146 | the command and the line are left as `Parse.IdList` says |
| Parse.FillIds | src/parse.c:121-138 | the loop stores the ids of the first tokens up to the limit, as `Parse.ScanArgs` says |
| Parse.FillRound | src/parse.c:125-137 | one round of the loop is one step of `Parse.ScanArgs` |
| Parse.ParseAdd | src/parse.c:33-53 | the command and the line are left as `Parse.AddCmd` says |
| Parse.ParseAddNode | src/parse.c:38-43 | the `add node` branch |
| Parse.ParseAddBlock | src/parse.c:44-50 | the `add block` branch: one bid, then node ids |
| Parse.ParseRm | src/parse.c:59-78 | the command and the line are left as `Parse.RmCmd` says |
| Parse.ParseRmNode | src/parse.c:64-69 | the `rm node` branch |
| Parse.ParseRmBlock | src/parse.c:70-75 | the `rm block` branch |
| Parse.ParseLs | src/parse.c:151-162 | the command is left as `Parse.LsCmd` says |
| Parse.ParseCmd | src/parse.c:177-192 | the command becomes `Parse.ParseLine` of the line's tokens, whose accept rules are the lemmas above |

## Left out

- `free_block`, `free_chain`, `free_node`, `free_node_chain` and `free_blockchain` are not modelled, because Dafny has no deallocation. Removed blocks and nodes drop out of the ghost sequences but stay in the `Repr` footprints.
- Nodes.Node.RmvBlock: requires the block to be in the node, or the node to be empty. The source also accepts a foreign block on a one-block node and then drops that node's only block (src/blockchain/node/node.c:91-95). That case is not modelled.
- Blockchain.Registry.RmvNode: requires the node to be in the registry, or the registry to be empty. On a one-node registry the source drops the only node whatever the argument is (src/blockchain/blockchain.c:74-78). That case is not modelled.
- Blockchain.Registry.UpdateSyncState: the `new_block(0)` sentinels are always allocated. The source does not check them for NULL.
- Blockchain.Registry.GetNumNodes: `size_t num_nodes` becomes an unbounded `nat`. No overflow is modelled.
- Blockchain.Registry.Synchronize: on failure it promises only a valid registry with the same nodes. A failed allocation can leave some nodes stripped and others not, and that intermediate state is not described.
- Blocks.CloneChain: requires a non-empty chain. The source's only caller passes the head of a non-empty scratch node.
- CString.Strncmp: requires n ≥ 1. With n = 0 the source still compares the first characters.
- CString.Strcpy: requires destination and source to be different buffers. Overlapping copies are not modelled.
- CString.Strncpy: requires destination and source to be different buffers.
- CString.Strcat: requires destination and source to be different buffers.
- CString.Strchr: characters are Dafny `char` values. Codes 0x80–0xFF are read as signed bytes (`CString.Signed`), as on a signed-`char` target. Characters above 0xFF, and multi-byte encodings, have no counterpart in the source.
- Parse.Env: `_isnumeric` and `strtol` (`src/utils/_stdlib.c`) are not part of this model. They enter as the two functions of `Parse.Env`.
- Parse.ParseCmd: requires a non-empty line. On an empty line the source hands a NULL token to `_strcmp`.
- Parse.ParseIdList: `malloc` never fails, and the previous list is not freed.
- `parse_sync_cmd` and `parse_quit_cmd` are one assignment each. They are inlined in `Parse.ParseCmd`.
- Allocation failure is modelled as a nondeterministic choice in `Blocks.NewBlock`, `Blocks.CloneBlock` and `Nodes.NewNode`. The failure paths of the callers are therefore proved for every outcome.
- The static sentinels `dummy_head`/`dummy_tail` of `node.c` and `blockchain.c` are fresh objects passed in. The static registry and command records are objects created by their constructors.
- `my_blockchain.c`, `commands.c`, `save.c`, `error.c`, and every function of `command.c` other than `new_cmd` are not part of this model. They do I/O, persistence and command execution.
- A cursor is the ghost count of synced blocks, tied to the `sync_tail` pointer by `Nodes.Node.Valid`.
- `add_node` clears every cursor eagerly when the registry is not empty. The model follows this code; lazy invalidation of the cursors is not modelled.

## Findings

| source | as written | input that shows it | evidently intended | confidence | as-written member | corrected member |
|---|---|---|---|---|---|---|
| src/blockchain/blockchain.c:192-204 | `sync_nodes` appends the aggregate after each node's own synced part, and does nothing when the aggregate is empty | nodes 1:[] and 2:[1,2] with one block synced on node 2 end as [2] and [1,2]; nodes 1:[1] (synced) and 2:[] have nothing pending and stay unsynced | after a full sync every chain is identical and the registry is synced | not executed | Ledger.BroadcastKeepsDifferentChains | Ledger.BroadcastSynchronises |
