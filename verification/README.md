# Turbo gateway: a verified model

This project models the stateful cores of the Turbo gateway and proves properties of them over every input and every
run. Each core has a value-level specification (functions on datatypes), theorems about that specification, and, as the
program changes its state in place, a class whose methods are proved equal to the specification step by step.

| file | what it models |
|---|---|
| `ForkChoice.dfy`, `ChainStore.dfy`, `BdnRelay.dfy`, `ChainRuns.dfy` | the fork-choice rule, the storage around it, the relaying of new heads, and whole runs of events |
| `BranchWalk.dfy`, `Progress.dfy` | when an update must succeed and to what it leads; what each event must achieve |
| `HeaderQueries.dfy` | header queries of the Ethereum wire protocol (GetBlockHeaders) |
| `ExampleRuns.dfy` | concrete runs on which properties fail |
| `IntendedRuns.dfy` | whole runs with the step that the comment in the fork choice describes |
| `EthChain.dfy`, `Backend.dfy` | the chain object and the backend handler |
| `PeerQueue.dfy` | the release of queued blocks to one peer |
| `HashHistory.dfy`, `TxStore.dfy`, `TxCleanup.dfy`, `TxRuns.dfy`, `TbTxStore.dfy`, `Gateway.dfy` | the transaction store, its expiring history, its cleanup, and the gateway's forwarding decision |
| `ShortTimestamp.dfy`, `WireBytes.dfy`, `BroadcastCodec.dfy`, `Stream.dfy` | the short timestamp, the broadcast message, and the framing of the connection |
| `GoInts.dfy`, `EthTypes.dfy` | Go's fixed-width integers; headers, hashes and refs |

## What the model takes as given

- A handler call is one atomic step and reads the clock once. Clocks, the outcome of every send, the answers of the ID
  assigner and the results of socket reads and writes are inputs, over all of which the theorems quantify.
- A hash is a value that names a header or nothing (`EthTypes.Hash`): hashing is injective and has no cycles.
- uint64 and int arithmetic of heights and indices wraps as in Go, and is written out. Durations and times of the
  store and the history are unbounded integers.
- Blocks are numbered as they come: the code does not check the Ethereum rule "number is parent number + 1" (Yellow
  Paper, section 4.3.4, Block Header Validity), and, one corollary apart (`ChainRuns.RunKeepsLinked`), no result on runs
  assumes it. That maps and refs agree, that the send loop meets no error and sends in ascending order, and that header
  queries are sound, hold of every run. That no block is sent or confirmed twice, and that the intended refs stay
  strict, hold as long as no event puts a block 0 on top of a head at height 2^64 - 1 (`BdnRelay.WrapsHead`), the one
  case in which the head height drops. Linkage of the literal refs by height has its exact condition.
- `Sane` asks of the configuration that minValidChain and maxReorg are positive and maxReorg <= maxSize < 2^63; the
  shipped constants are 10, 20 and 500.
- The hash given to InitializeDifficulty is never added as a block: `blockchain/eth/chain.go:271-275` files it under
  height 0, and its metadata would keep that height.

## Where the code departs from its comments

- `blockchain/eth/chain.go:413-416`: "append immediately" has no return. The code goes on and enters the ref a second
  time (`ForkChoice.DirectExtension`). The specification `Update` is the literal code; it keeps strict linkage exactly
  when it does not do this (`ForkChoice.UpdateKeepsStrictIff`). `UpdateIntended` is the step that the comment describes,
  and `IntendedRuns` proves exactly which runs with it stay strictly linked.
- `blockchain/eth/chain.go:409-416`: the height after 2^64 - 1 is 0, so a block 0 on top of the highest one becomes head
  without being counted (`ExampleRuns.WrapLowersHead`).
- `blockchain/eth/chain.go:386-401`: the block at a depth is looked up by height, so the duplicates of the literal code
  can hide it (`ChainRuns.DepthExact`), and no confirm message is sent for it then. The body is looked up by hash, so
  where two blocks of the refs share a number the header of one comes with the body of the other
  (`ExampleRuns.DepthMixesBlocks`).
- `blockchain/eth/peer.go:229-234`: the search for the insertion point has no break and ends at the last higher block
  (`PeerQueue.InsertKeepsSortedIff`).
- `tbmessage/tx.go:142-148`: the size leaves out the ID and the short timestamp, so a transaction message does not
  survive packing. Only the timestamp of `Tx` is modelled.
- `blockchain/eth/chain.go:361-378`: a reverse header query past the tail fails, except when it passes it so far that
  the index wraps (`HeaderQueries.BackwardComplete` gives the exact condition).

## Model

| member | source | states |
|---|---|---|
| `BdnRelay.NeverSentTwice` | blockchain/eth/backend.go:349-369 | Over every run of peer blocks, confirmations, BDN blocks and prunings, whatever sends fail, in which no event puts a block 0 on top of a head at 2^64 - 1: no block hash is successfully sent to the BDN twice, not after a reorg and back, not after pruning |
| `BdnRelay.RunKeepsInv` | blockchain/eth/backend.go:344-369 | In every state of such a run no hash was sent twice, and each block sent so far is flagged as sent, or lies at least maxSize (hence maxReorg) below the head, where no update can make it new again |
| `BdnRelay.SettledHeadIsFlagged` | blockchain/eth/chain.go:647-703 | Pruning (kept depth maxSize >= maxReorg) never forgets the sent flag of a block that can still become a new head |
| `BdnRelay.SentBeforeNotAgain` | blockchain/eth/chain.go:174-216 | The new heads after any update contain no block that was sent before |
| `BdnRelay.StepKeepsInv` | blockchain/eth/backend.go:147-166 | Each single event that does not so wrap the head keeps the sent invariant |
| `BdnRelay.UpdateRises` | blockchain/eth/chain.go:403-486 | Any update on stored headers that does not wrap the head leaves it at or above its old height; every ref it brings in is less than maxReorg below the old head, and the new refs are parent-linked |
| `BdnRelay.AddBlockRises` | blockchain/eth/chain.go:128-149 | Adding a block loses no flag, keeps the head from dropping unless it wraps it, and leaves the refs alone when the block comes from the BDN |
| `BdnRelay.ConfirmBlockRises` | blockchain/eth/chain.go:152-170 | The same for confirming a block |
| `BdnRelay.DeliverMarks` | blockchain/eth/backend.go:356-369 | The send loop sends exactly the accepted heads, each once, and marks exactly those |
| `BdnRelay.DeliverAscends` | blockchain/eth/backend.go:355-369 | Heads that descend by whatever measure, those of them accepted, go out in ascending order of it |
| `BdnRelay.SendHeadsAscends` | blockchain/eth/backend.go:355-369 | The blocks of one send loop go out ancestors first, and in ascending order of number unless the new refs go down past height 0 |
| `BdnRelay.CleanKeepsCore` | blockchain/eth/chain.go:647-703 | Pruning keeps the maps indexed by height and leaves the head ref in place |
| `ChainRuns.SendsAscend` | blockchain/eth/backend.go:355-369 | After every run, with no condition on its events, the next event hands its blocks to the BDN in that order, after all those sent before |
| `ChainRuns.NeverConfirmedTwice` | blockchain/eth/backend.go:371-392 | Over every run in which no event wraps the head, whatever the numbering of its blocks, no block is confirmed to the gateway twice (when the block to confirm is found at all, SendLoopIsServed says) |
| `ChainRuns.RunKeepsChainInv` | blockchain/eth/chain.go:403-703 | In every reachable state, with no condition on any event or block: the maps agree, every ref has its header at its height, its metadata and its body, adjacent refs are identical or parent-linked, and no ref is deeper below the head in heights (modulo 2^64) than in positions |
| `ChainRuns.RunQueriesSound` | blockchain/eth/chain.go:308-383 | In every reachable state of the literal machine, with no condition on any event or block: a query by number or by hash, for any count, int skip and direction, returns what HeaderQueries.ByNumberSound and ByHashSound say |
| `ChainRuns.RunQueriesAnswer` | blockchain/eth/chain.go:308-383 | In every reachable state of the literal machine a query answers exactly what its first header and the refs determine, errors included; one header asked for by the hash of a stored block is returned, and an unknown hash fails |
| `ChainRuns.RunHighestIff` | blockchain/eth/chain.go:403-703 | No ref is above the head in all states of a run if and only if none of its updates wraps the head or walks past height 0 up to heights above it |
| `ChainRuns.StepKeepsHighestIff` | blockchain/eth/chain.go:403-486 | The same for one event |
| `ChainRuns.NoWrapKeepsHighest` | blockchain/eth/chain.go:403-703 | In terms of blocks alone: it is so when no block of the run is numbered 0 on a parent numbered 2^64 - 1 |
| `ChainRuns.HeadNeverDrops` | blockchain/eth/chain.go:403-486 | From any point of a run on after which no event wraps the head, once there is a head there always is one and its height never decreases |
| `ChainRuns.StepLowersHeadIff` | blockchain/eth/backend.go:147-206 | From any state whatever, one event lowers the head if and only if it offers a block 0 on top of a head at 2^64 - 1; the refs never become empty, and a BDN block does not touch them |
| `ChainRuns.NoWrapNeverWrapsHead` | blockchain/eth/chain.go:403-416 | In terms of blocks alone: no event of a run wraps the head when none of its blocks is numbered 0 on a parent numbered 2^64 - 1 |
| `ChainRuns.SendLoopIsServed` | blockchain/eth/backend.go:349-393 | In every reachable state, with no condition on any event or block: the scan for new heads meets no inconsistent-chainstate error and stops short of the new refs only at a block already sent; the block to confirm is found if and only if no duplicate ref hides it, and no nil header is met |
| `ChainRuns.DepthExact` | blockchain/eth/chain.go:386-401 | The block at a depth is found if and only if the ref as many positions below the head as it is heights below has the same height. The header is then of that ref and the body of the ref at the depth, so both are of one block if and only if the two refs are one, as they are on linked refs; otherwise there is an error, never a nil header |
| `ChainRuns.UnhiddenIsSame` | blockchain/eth/chain.go:386-401 | On linked refs the two are one ref |
| `ChainRuns.TwoExtensionsHideDepth` | blockchain/eth/chain.go:386-401 | After two literal direct extensions neither copy of the lower block is found at its depth |
| `ChainRuns.AddBlockKeepsChainInv` | blockchain/eth/chain.go:128-149 | Adding any block keeps agreement, and the refs shallow |
| `ChainRuns.ConfirmBlockKeepsChainInv` | blockchain/eth/chain.go:152-170 | Confirming a block keeps them so |
| `ChainRuns.CleanKeepsChainInv` | blockchain/eth/chain.go:647-703 | Pruning keeps them so |
| `ChainRuns.PrunedIsOffRefs` | blockchain/eth/chain.go:664-697 | A pruned hash is on none of the remaining refs |
| `ChainRuns.ReadyIsStored` | blockchain/eth/chain.go:128-170 | What an event offers to the refs is stored by then, under the number it is offered at |
| `ChainRuns.RunLinkedIff` | blockchain/eth/chain.go:403-703 | Over any run of the literal machine adjacent refs are identical or parent-linked one height apart in all its states if and only if each update goes well: it does not wrap the head, its branch stays above height 0, and it meets the refs it keeps at a header numbered one above its parent |
| `ChainRuns.StepKeepsLinkedIff` | blockchain/eth/chain.go:403-486 | The same for one event |
| `ChainRuns.RunKeepsLinked` | blockchain/eth/chain.go:403-703 | In particular when, at each event, the stored headers with a parent among the refs are well numbered and none is numbered 0 on a parent numbered 2^64 - 1 |
| `ChainRuns.AnnounceDeepTellsOnce` | blockchain/eth/backend.go:371-392 | The confirm message step keeps the told-once invariant |
| `Progress.RunFollows` | blockchain/eth/chain.go:128-170 | After any run, what a peer block or a confirmation makes of the refs is exactly what the stored ancestors of its block say |
| `Progress.RunHandsOver` | blockchain/eth/backend.go:349-369 | After any run, an event that puts a branch in front of the refs hands to the BDN exactly those of its blocks, from the new head down to the first that was sent before, whose send succeeds |
| `Progress.RunHandsNothing` | blockchain/eth/backend.go:349-369 | An event that puts none in front hands over nothing |
| `Progress.RunHandsOverReceived` | blockchain/eth/chain.go:174-216 | What is handed over for a block is the body and the difficulty that came with it in the event which brought it in, since when it has been stored |
| `Progress.RunCarries` | blockchain/eth/chain.go:513-601 | After any run, the body and the difficulty stored for a hash are those of the event that brought it in |
| `Progress.RunConfirms` | blockchain/eth/backend.go:371-392 | After any run, an event confirms to the gateway the block cfg.confirmations below the head it leaves if and only if the message gets through, the block is found, and it was not confirmed before |
| `Progress.AnnouncesExactly` | blockchain/eth/backend.go:371-392 | The confirm step at any depth: the message, the flag, and nothing else |
| `Progress.OtherEventsAreSilent` | blockchain/eth/backend.go:483-504 | A cleaning tick prunes with the configured size, a BDN block is stored unless it is; neither hands over or confirms anything |
| `Progress.RefusedFromThenOn` | blockchain/eth/chain.go:219-231 | Once sent and confirmed, a block is refused as already seen at the end of every run in which it is not pruned at maxSize or more below the head |
| `Progress.StepKeepsRefused` | blockchain/eth/chain.go:128-170 | One event keeps it so, or is a cleaning that prunes it at that depth |
| `Progress.ValidateRefuses` | blockchain/eth/chain.go:219-231 | A block is refused as seen if and only if it was sent and confirmed, and as too far ahead if and only if it is more than 100 above a head above 0 |
| `Progress.ConfirmRaises` | blockchain/eth/chain.go:152-170 | A confirmation raises the flag of a known hash and offers its header, and does nothing for an unknown one |
| `Progress.NewBlockIsStored` | blockchain/eth/chain.go:128-149 | A block not known is stored with header, body, difficulty and flags; nothing else changes |
| `Progress.KnownBlockIsKept` | blockchain/eth/chain.go:128-149 | A known one at most gets its confirmation raised, by a blockchain source only |
| `Progress.CleanCutsRefs` | blockchain/eth/chain.go:664-697 | A full store keeps the first min(length, maxSize) refs; any other is left as it is |
| `Progress.CleanKeepsTheRest` | blockchain/eth/chain.go:664-691 | Of each block a full store drops all there is, or keeps it unchanged, flags, body and difficulty, as its height says |
| `Progress.DoomedIff` | blockchain/eth/chain.go:660-676 | A height is dropped if and only if it is at least maxSize below the head and int64 arithmetic does not wrap |
| `IntendedRuns.RunStrictIff` | blockchain/eth/chain.go:403-703 | With the intended step, over any run of peer blocks, confirmations, BDN blocks, send loops and prunings: adjacent refs are parent-linked with heights exactly one apart in all its states if and only if none of its events wraps the head |
| `IntendedRuns.RunKeepsStrict` | blockchain/eth/chain.go:403-703 | So after a run that does not wrap the head the refs are strict, the maps agree, and every ref has its header at its height, its metadata and its body |
| `IntendedRuns.RunKeepsChainInv` | blockchain/eth/chain.go:403-703 | The maps agree, and the refs with them, after every run with the intended step, wraps included |
| `IntendedRuns.RunSwitchesAtCommonAncestor` | blockchain/eth/chain.go:403-486 | In every state so reached, the next block or confirmation keeps a suffix of the refs and adds only blocks that were not canonical |
| `IntendedRuns.RunFollows` | blockchain/eth/chain.go:403-486 | After any run with the intended step, the next event changes the refs, and counts new heads, exactly as the stored ancestors of its block say |
| `IntendedRuns.RunServesDepth` | blockchain/eth/chain.go:386-401 | In every state so reached, each ref is found at its depth |
| `IntendedRuns.RunAnswersQueries` | blockchain/eth/chain.go:308-383 | In every state so reached header queries, by number or by hash, are complete in both directions, exactly as HeaderQueries.ForwardComplete and BackwardComplete say |
| `IntendedRuns.HandleKeepsStrictIff` | blockchain/eth/chain.go:403-486 | One peer block or confirmation keeps strict refs strict if and only if it does not wrap the head |
| `IntendedRuns.OfferKeepsChainInv` | blockchain/eth/chain.go:403-486 | One intended update keeps maps and refs in agreement, and the refs shallow |
| `ExampleRuns.WrapSendsTwice` | blockchain/eth/chain.go:403-416 | The condition on wraps is needed for both never-twice results: a concrete run, in which each block passes validation, wraps the head from 2^64 - 1 to 0, and sends one block twice and confirms it twice; for brevity it uses the configuration 1, 1, 1, 0 for maxReorg, minValidChain, maxSize and confirmations |
| `ExampleRuns.WrapLowersHead` | blockchain/eth/chain.go:409-416 | What such a block 0 does: it becomes head at height 0, in front of all the old refs, and is not counted as a new head |
| `ExampleRuns.DepthMixesBlocks` | blockchain/eth/chain.go:386-401 | With the constants 20, 10, 500 of NewChain, a concrete run of four blocks that pass validation, one of them numbered like its parent, leads to refs that are not linked, where the block at depth 2 has the header of one block and the body of another |
| `ExampleRuns.ScreenedIsRun` | blockchain/eth/backend.go:147-166 | A run in which peer blocks that fail validation have no effect is a run of some of the same events, so what holds of every run holds with validation |
| `BranchWalk.UpdateArrives` | blockchain/eth/chain.go:418-485 | A block above the head whose stored ancestors, at consecutive heights, come down far enough changes the refs: to minValidChain blocks above the old head, or back to a ref as many places down as the walk is blocks below the old head, or past the last ref, or through maxReorg steps of look-back. The refs become all these blocks in front of the suffix met, or alone, and all are counted |
| `BranchWalk.UpdateBreaksOff` | blockchain/eth/chain.go:418-485 | If an ancestor is missing before that, nothing changes and nothing is counted (an extension entered at once apart) |
| `BranchWalk.WalkExists` | blockchain/eth/chain.go:418-485 | Every walk does one or the other |
| `BranchWalk.UpdateCountsIff` | blockchain/eth/chain.go:403-486 | So an update is counted if and only if the block is above the head and its stored ancestors come down that far |
| `BranchWalk.UpdateElsewhere` | blockchain/eth/chain.go:405-421 | A first block becomes the chain and is counted; one not above the head changes nothing, except a block 0 on a head at 2^64 - 1 |
| `BranchWalk.IntendedFollows` | blockchain/eth/chain.go:403-486 | The same for the step the comment describes, in which a direct extension is put in front once |
| `ForkChoice.UpdateShape` | blockchain/eth/chain.go:403-486 | For any block on a non-empty chain, a counted update gives M ++ S: M has the returned count, at most minValidChain - 1 + maxReorg, is parent-linked down from the new head and reaches less than maxReorg below the old one; S is empty or a suffix of the old refs on which M stands; the direct extension is the literal exception, S being the new ref and then all the old ones. An uncounted update changes nothing, except that a block 0 on top of a head at 2^64 - 1 is put in front |
| `ForkChoice.IntendedUpdate` | blockchain/eth/chain.go:403-486 | For the step the comment describes, on a strict chain: the kept part is a suffix, the switch is at the highest common ancestor, as no added block was canonical before, and the refs stay strict if and only if the head does not wrap |
| `ForkChoice.UpdateKeepsStrictIff` | blockchain/eth/chain.go:403-486 | On a strict chain of stored headers the literal update keeps it strict if and only if the block is not a direct extension, or is one, not numbered 0, with minValidChain 1 |
| `ForkChoice.UpdateKeepsLinkedIff` | blockchain/eth/chain.go:403-486 | The literal update keeps adjacent refs identical or parent-linked if and only if it does not wrap the head, its branch stays above height 0, and the branch meets the kept refs at a header numbered one above its parent |
| `ForkChoice.ChildrenNumberedWalkWell` | blockchain/eth/chain.go:403-486 | It does when no stored header is numbered 0 on a parent numbered 2^64 - 1 and those with a parent among the refs are well numbered |
| `ForkChoice.IllNumberedBreaksLink` | blockchain/eth/chain.go:453-485 | It can fail: over refs n, n, o, which a run reaches, a block m on a stored p that has the number of its parent n leads to refs m, p, n, o with p and n at the same height |
| `ForkChoice.UpdateKeepsShallow` | blockchain/eth/chain.go:403-486 | However blocks are numbered, the literal update keeps every ref at most as deep below the head in heights (modulo 2^64) as in positions |
| `ForkChoice.UpdateKeepsHashLinked` | blockchain/eth/chain.go:403-486 | However blocks are numbered, the literal update keeps adjacent refs identical or parent-linked |
| `ForkChoice.UpdateKeepsHighestIff` | blockchain/eth/chain.go:403-486 | It leaves no ref above the head if and only if it does not wrap the head and its branch does not go past height 0 under a head below 2^64 - 1 |
| `ForkChoice.LinkedIsShallow` | blockchain/eth/chain.go:488-511 | Linked refs are so |
| `ForkChoice.UpdateKeepsGood` | blockchain/eth/chain.go:403-486 | Refs stay refs to stored headers at their own numbers |
| `ForkChoice.ReconcileShape` | blockchain/eth/chain.go:418-485 | Gap fill, jump and reorganisation yield a bounded parent-linked branch in front of a suffix of the old refs, none of whose blocks is at the same place on the old chain |
| `ForkChoice.ReconcileExtension` | blockchain/eth/chain.go:423-451 | The general case, reached by a stored direct extension, puts the new ref in front of whatever refs it is given |
| `ForkChoice.DirectExtension` | blockchain/eth/chain.go:413-416 | The literal code enters a direct extension twice; the intended step enters it once |
| `ForkChoice.DuplicateHeadForgetsIff` | blockchain/eth/chain.go:459-482 | While the head is entered twice, a reorganisation keeps the old refs whole or drops them whole if and only if it does not meet them at an ill-numbered header |
| `ForkChoice.HeadDropsOnlyByWrap` | blockchain/eth/chain.go:403-486 | For any input at all, the head height drops if and only if the head is at 2^64 - 1 and a block 0 names it as parent |
| `ForkChoice.UpdateChangesIffCounted` | blockchain/eth/chain.go:403-486 | An update raises the head if and only if it returns a positive count, and changes the refs if and only if it does that or wraps the head |
| `ForkChoice.LineageFalls` | blockchain/eth/chain.go:418-485 | Along parent-linked refs no hash repeats |
| `ForkChoice.FillGapBranch` | blockchain/eth/chain.go:423-447 | The downward walk collects a parent-linked branch and ends at the old head height, at minValidChain refs, or at a missing header |
| `ForkChoice.LookBackBranch` | blockchain/eth/chain.go:453-485 | The look-back extends the branch by one ref per old ref, heights wrapping below 0, differs from the old ref at each of them, and ends on the kept suffix or at maxReorg |
| `ForkChoice.LinkedHeights` | blockchain/eth/chain.go:488-511 | On linked refs, position j is at most j - i heights below position i, and equal heights mean equal refs |
| `ForkChoice.StrictHeights` | blockchain/eth/chain.go:488-511 | On strict refs, position i is exactly i heights below the head |
| `ChainStore.CleanKeepsConsistent` | blockchain/eth/chain.go:647-703 | Pruning never drops anything a remaining ref needs |
| `ChainStore.CleanKeepsRefs` | blockchain/eth/chain.go:664-697 | Each remaining ref keeps its header at its height, because position i is at most i heights below the head |
| `ChainStore.CleanKeepsStored` | blockchain/eth/chain.go:664-691 | A header stays stored exactly when its height is not below the minimum, and its hash is pruned exactly when the header is |
| `ChainStore.CleanKeepsIndexed` | blockchain/eth/chain.go:664-691 | After pruning, metadata and filed headers still correspond |
| `ChainStore.DoomedIsDeep` | blockchain/eth/chain.go:660-676 | A pruned height is at least maxSize below the head, wrap-around included |
| `ChainStore.StoreBlockKeepsConsistent` | blockchain/eth/chain.go:513-601 | Storing a block keeps the maps in agreement and files its header |
| `ChainStore.ReceiveKeepsConsistent` | blockchain/eth/chain.go:128-149 | Storing a block, or only its confirmation when it is known, keeps the maps in agreement |
| `ChainStore.AddBlockKeepsConsistent` | blockchain/eth/chain.go:128-149 | Adding a block keeps maps and refs in agreement |
| `ChainStore.ConfirmBlockKeepsConsistent` | blockchain/eth/chain.go:152-170 | Confirming a block keeps maps and refs in agreement |
| `ChainStore.NewHeadsAreUnsentRefs` | blockchain/eth/chain.go:174-216 | Whatever the state, the heads returned are the first refs, in order, and none is flagged as sent |
| `ChainStore.NewHeadsComplete` | blockchain/eth/chain.go:174-216 | On an agreeing state no error occurs, and the heads end early only at a block already sent |
| `HeaderQueries.ByNumberSound` | blockchain/eth/chain.go:308-383 | For any head, count, int skip and direction, a successful query by number on stored refs that are parent-linked or identical and shallow, as after every run, returns between 1 and count headers (1 when count is 0): the first at the origin, each at skip + 1 heights (modulo 2^64) from the one before, each the header of the ref as many positions down as its height; exactly at origin + k * (skip + 1) if no ref is above the head; parent-linked when skip is 0 |
| `HeaderQueries.ByHashSound` | blockchain/eth/chain.go:330-383 | A successful query by hash returns first the header of that hash, canonical or not, and then canonical headers as above; those are parent-linked when skip is 0, and the first with them if it is canonical |
| `HeaderQueries.QueryAnswers` | blockchain/eth/chain.go:308-383 | Any query, in full: from the first header, the walk along the refs as far as they are at the heights asked for, then an error or the end as the wrapping index says |
| `HeaderQueries.ContinueExact` | blockchain/eth/chain.go:342-381 | The loop answers with that walk |
| `HeaderQueries.WalkFrom` | blockchain/eth/chain.go:352-381 | There is such a walk from every header |
| `HeaderQueries.OriginExact` | blockchain/eth/chain.go:316-350 | The first header by number or by hash, or which error |
| `HeaderQueries.ByHashAnswers` | blockchain/eth/chain.go:330-350 | In any state with agreeing maps, a query for one header by hash returns that of a stored block, and fails for any other |
| `HeaderQueries.LookupIff` | blockchain/eth/chain.go:488-511 | A lookup finds a header if and only if the ref as many places down as the height is below the head stands at it |
| `HeaderQueries.ForwardComplete` | blockchain/eth/chain.go:308-383 | On a strict chain a forward query, by number or by the hash of a stored block, from a height between tail and head returns min(count, (head - origin) / (skip + 1) + 1) headers |
| `HeaderQueries.BackwardComplete` | blockchain/eth/chain.go:308-383 | On a strict chain a reverse query, by number or by hash, returns count headers if they lie on it; otherwise it fails if and only if the first height below the tail is less than 2^63 under the head, and beyond that, where the uint64 index wraps, it returns what there is without an error |
| `HeaderQueries.BothAnswersOccur` | blockchain/eth/chain.go:361-378 | Both answers to a query past the tail occur: a concrete chain and two skips |
| `HeaderQueries.FitsIsQuotient` | blockchain/eth/chain.go:361-378 | The stride count of the two results above is the integer quotient |
| `HeaderQueries.LookupExact` | blockchain/eth/chain.go:488-511 | A lookup by height whose wrapping index falls on the refs finds a header if and only if the ref there has that height |
| `HeaderQueries.LookupStrict` | blockchain/eth/chain.go:488-511 | On a strict chain every height from tail to head is found; every other height gives the nil result or the error as the wrapping index says |
| `HeaderQueries.LookupIsCanonical` | blockchain/eth/chain.go:488-511 | Whatever is found has the height asked for and is the header of the ref that many heights below the head |
| `HeaderQueries.DirectExtensionHidesParent` | blockchain/eth/chain.go:413-416 | After a literal direct extension the parent cannot be looked up by height; after the intended one it can |
| `HeaderQueries.CollectSound` | blockchain/eth/chain.go:352-381 | The loop adds only canonical headers, each one increment (modulo 2^64) from the one before |
| `HeaderQueries.NextIsParent` | blockchain/eth/chain.go:488-511 | Two headers that lookups find at neighbouring heights (modulo 2^64) are parent and child, however the refs are numbered |
| `HeaderQueries.StrideExact` | blockchain/eth/chain.go:352-381 | Among headers within 2^63 of each other stepping modulo 2^64 is exact |
| `EthChain.Chain.constructor` | blockchain/eth/chain.go:97-112 | A new chain is empty |
| `EthChain.Chain.AddBlock` | blockchain/eth/chain.go:128-149 | New state and count are those of the specified addition |
| `EthChain.Chain.HasBlock` | blockchain/eth/chain.go:234-236 | Whether metadata and body are stored |
| `EthChain.Chain.ValidateBlock` | blockchain/eth/chain.go:219-231 | Already seen, too far ahead of the head (on 64-bit ints), or acceptable |
| `EthChain.Chain.ConfirmBlock` | blockchain/eth/chain.go:152-170 | New state and count are those of the specified confirmation; the rest is untouched |
| `EthChain.Chain.UpdateChainState` | blockchain/eth/chain.go:403-486 | The refs and the count after the five-exit update are those of the specified update |
| `EthChain.Chain.FillMissing` | blockchain/eth/chain.go:423-447 | The walk from the new block down to the old head height |
| `EthChain.Chain.Reorganize` | blockchain/eth/chain.go:453-485 | The look-back loop, with truncation at maxReorg |
| `EthChain.Chain.GetNewHeadsForBDN` | blockchain/eth/chain.go:174-216 | Heads and error are those of the specified scan |
| `EthChain.Chain.MarkSentToBDN` | blockchain/eth/chain.go:257-268 | Only the sent flag of that hash changes |
| `EthChain.Chain.GetHeaderAtHeight` | blockchain/eth/chain.go:488-511 | The lookup through the wrapping index |
| `EthChain.Chain.BlockAtDepth` | blockchain/eth/chain.go:386-401 | The block at a depth, or which lookup fails |
| `EthChain.Chain.GetHeaders` | blockchain/eth/chain.go:308-383 | The answer to a header query, errors included |
| `EthChain.Chain.Continue` | blockchain/eth/chain.go:342-381 | The query loop from its origin on |
| `EthChain.Chain.GetBlockHeader` | blockchain/eth/chain.go:519-530 | The header of that hash among those filed at the height |
| `EthChain.Chain.StoreBlockMetadata` | blockchain/eth/chain.go:547-555 | Flags of known hashes are kept, confirmed is only ever raised |
| `EthChain.Chain.StoreBlock` | blockchain/eth/chain.go:513-517 | Header, body and difficulty are filed |
| `EthChain.Chain.PruneHash` | blockchain/eth/chain.go:641-645 | Exactly the metadata, body and difficulty of the hash go |
| `EthChain.Chain.PruneHeights` | blockchain/eth/chain.go:664-691 | Exactly the heights below the minimum go, with the hashes filed there |
| `EthChain.Chain.Clean` | blockchain/eth/chain.go:647-703 | Maps and refs after pruning and truncation are the specified ones |
| `EthChain.Chain.PruneHeaders` | blockchain/eth/chain.go:679-682 | Exactly the hashes of one list are pruned |
| `EthChain.Chain.PruneHeight` | blockchain/eth/chain.go:670-690 | One height goes if it lies below the minimum, with the hashes filed there |
| `Backend.Handler.ProcessBlock` | blockchain/eth/backend.go:147-177 | A peer block: refused by validation with no effect, or added, then the send loop |
| `Backend.Handler.ConfirmBlock` | blockchain/eth/backend.go:344-347 | A confirmation: applied, then the send loop |
| `Backend.Handler.StoreBDNBlock` | blockchain/eth/backend.go:483-504 | A BDN block: added unless known, no send loop |
| `Backend.Handler.SendConfirmedBlocksToBDN` | blockchain/eth/backend.go:349-393 | New heads out in ascending order, then the confirm message for the deep block |
| `Backend.Handler.SendHeads` | blockchain/eth/backend.go:356-369 | The reverse loop marks exactly the blocks that got through |
| `Backend.Handler.AnnounceDeepBlock` | blockchain/eth/backend.go:371-392 | The block at confirmation depth is announced unless it was before |
| `Backend.Handler.CleanBlockStorage` | blockchain/eth/chain.go:114-124 | One tick of the cleaning loop |
| `PeerQueue.EveryBlockAccounted` | blockchain/eth/peer.go:144-251 | In every run the multiset of blocks received is the disjoint union of those queued, sent, pruned, dropped for space and ignored as stale |
| `PeerQueue.RunGoes` | blockchain/eth/peer.go:144-251 | After any run the next event does exactly what it must, and that is recorded |
| `PeerQueue.NewBlockGoes` | blockchain/eth/peer.go:204-246 | A block is ignored if and only if it is at or below a sent height above 0; otherwise it goes out at once if and only if it is the child, by hash and next height, of the confirmed head, or its child by hash while the peer has no height; otherwise it is queued before the last higher block or at the end, and only the oldest beyond 50 are dropped |
| `PeerQueue.NewHeadGoes` | blockchain/eth/peer.go:147-203 | On any queue, sorted or not: a lower head is ignored; any other is confirmed, the child at which the scan stops goes out, and what is pruned is what stands before it, or before the last block at the next height, or before the stop |
| `PeerQueue.RunKeepsQueue` | blockchain/eth/peer.go:144-251 | In every run each sent block is a child, by hash, of the head confirmed when it went out, one height above it unless that head is at height 0; the queue holds at most 50 blocks |
| `PeerQueue.RunKeepsInitialBlock` | blockchain/eth/peer.go:214-216 | In every run, with no condition, at most one block with a number above 0 goes out at another height than the one next to the confirmed head: the initial block |
| `PeerQueue.RunLeadsIff` | blockchain/eth/peer.go:147-251 | Over any run the sent height is at least the confirmed height in all its states if and only if no event is a new head at 2^64 - 1 that finds a child in the queue behind nothing but blocks 0 |
| `PeerQueue.RunKeepsLead` | blockchain/eth/peer.go:147-203 | In particular when all heads are below 2^64 - 1 |
| `PeerQueue.SentHeadLeadsIff` | blockchain/eth/peer.go:147-251 | From any state in which it does, the sent height stays at or above the confirmed height if and only if the event is not a new head at 2^64 - 1 that finds a child in the queue behind nothing but blocks 0 |
| `PeerQueue.LeadIsLost` | blockchain/eth/peer.go:147-251 | The case occurs: a run of two events ends with sent height 0 below confirmed height 2^64 - 1 |
| `PeerQueue.NewHeadAtTop` | blockchain/eth/peer.go:147-203 | At height 2^64 - 1, where the next height wraps to 0, a new head on a sorted queue leaves nothing behind if and only if the queue was empty or its only child is its last block; the queue stays sorted |
| `PeerQueue.InsertKeepsSortedIff` | blockchain/eth/peer.go:228-240 | The insertion (last higher block, as there is no break) keeps a sorted queue sorted if and only if at most one queued block is higher |
| `PeerQueue.NewHeadOnSorted` | blockchain/eth/peer.go:147-203 | On a sorted queue any new head releases the first child of the head whenever there is one, prunes only what comes before it, leaves no block below the next height (in uint64), and keeps the queue sorted |
| `PeerQueue.HeadConserves` | blockchain/eth/peer.go:147-203 | A new head loses or duplicates no queued block |
| `PeerQueue.BlockConserves` | blockchain/eth/peer.go:204-246 | A new block is queued, sent, ignored, or pushes out the blocks counted as dropped |
| `PeerQueue.HandleSendsChild` | blockchain/eth/peer.go:159-216 | One event sends at most one block, a child of the head confirmed after it |
| `PeerQueue.InsertionPoint` | blockchain/eth/peer.go:229-234 | The point is before the last higher block, or at the end exactly when none is higher |
| `PeerQueue.ScanSorted` | blockchain/eth/peer.go:160-186 | On a sorted queue the scan finds a child if there is one, and otherwise the first place above the head or the last at the next height |
| `PeerQueue.Peer.constructor` | blockchain/eth/peer.go:270-276 | After the handshake: the reported head at height 0, nothing sent, an empty queue |
| `PeerQueue.Peer.HandleNewHead` | blockchain/eth/peer.go:147-203 | Heads, queue and blocks sent after a new head |
| `PeerQueue.Peer.HandleNewBlock` | blockchain/eth/peer.go:204-246 | Heads, queue and blocks sent after a new block |
| `PeerQueue.Peer.SendTopBlock` | blockchain/eth/peer.go:254-267 | The first queued block goes out and becomes the sent head |
| `PeerQueue.Peer.InsertBlock` | blockchain/eth/peer.go:228-240 | The queue after the scan and the in-place shift |
| `PeerQueue.Peer.PutAt` | blockchain/eth/peer.go:237-240 | Append, copy up by one and store amount to an insertion |
| `PeerQueue.Peer.QueueBlock` | blockchain/eth/peer.go:228-245 | Insertion followed by the cut to the 50 last |
| `HashHistory.LiveIffHeld` | services/hash_history.go:35-58 | With a clock that does not go back, a hash is in the history, at that time or later, if and only if its last write was an addition not yet expired, wherever cleanings happened |
| `HashHistory.LiveIffHeldUnswept` | services/hash_history.go:50-58 | Under any clock: if and only if, besides, no cleaning came after that write at a clock reading past the expiry |
| `HashHistory.CleaningIsInvisible` | services/hash_history.go:76-87 | Removing every cleaning from a run changes none of its answers |
| `HashHistory.BackwardClockTells` | services/hash_history.go:76-87 | With a clock that goes back it can: a concrete run |
| `HashHistory.HashHistory.Add` | services/hash_history.go:35-37 | Files or refiles the expiry |
| `HashHistory.HashHistory.Remove` | services/hash_history.go:40-42 | Forgets the hash |
| `HashHistory.HashHistory.Exists` | services/hash_history.go:50-58 | Tells whether the hash is filed and not expired |
| `HashHistory.HashHistory.Clean` | services/hash_history.go:76-87 | Removes exactly the entries past their expiry and returns how many |
| `TxRuns.IndexLeadsToContent` | services/tbtxstore.go:115-124 | In every run each indexed ID leads to a stored transaction that lists it, lists are free of duplicates and of the empty ID, and a lookup by ID never finds content missing |
| `TxRuns.IndexIsFullScan` | services/tbtxstore.go:148-208 | If no ID is given to two hashes, the index equals a full scan of the store in every reachable state |
| `TxRuns.StepKeepsCompleteIff` | services/tbtxstore.go:148-208 | From an index equal to a full scan, one call leads to another such index if and only if it does not give an ID in the index to a second transaction |
| `TxRuns.RunCompleteIff` | services/tbtxstore.go:148-208 | Over any run the index equals a full scan in all states if and only if no call gives an ID in the index to a second transaction |
| `TxRuns.ReassignedIDIsLost` | services/tbtxstore.go:80-100 | After such a call, removing the second transaction leaves the first stored but not found by its ID |
| `TxRuns.StepKeepsSound` | services/tbtxstore.go:80-208 | Every call keeps indexed IDs pointing to stored transactions that list them |
| `TxRuns.AddThenFound` | services/tbtxstore.go:148-208 | After an addition the hash is stored exactly if it was before or the addition is not refused (too old, or seen and without an ID); its content is the first that came, and the ID given leads to it |
| `TxRuns.AddEnters` | services/tbtxstore.go:148-208 | The store after an addition, in full: when it takes effect, the first content, the IDs in order of arrival, the index and the history |
| `TxRuns.AddTells` | services/tbtxstore.go:148-208 | Every field of the result, told by the store before and after alone: newContent if and only if the hash has content that it had not, newTx if and only if it was entered, newTxID if and only if its list of IDs grew, and the ID assigned |
| `TxRuns.RemoveThenGone` | services/tbtxstore.go:80-100 | After a removal the hash is not stored and none of the IDs it listed finds anything |
| `TxRuns.RemovalTakes` | services/tbtxstore.go:80-100 | A removal takes what is to go with the IDs it lists, bars it for 30 minutes or the full time as asked, and leaves every other hash and ID |
| `TxRuns.RemovalsTake` | services/tbtxstore.go:103-131 | Which hashes each kind of call takes out |
| `TxRuns.LookupRefreshes` | services/tbtxstore.go:311-343 | A lookup bars a barred hash afresh and changes nothing else |
| `TxRuns.NeverStoredAndBarred` | services/tbtxstore.go:160-177 | With a clock that does not go back, no hash is both stored and live in the history |
| `TxRuns.ProtectedStaysOut` | services/tbtxstore.go:80-99 | A hash removed with full protection is not stored again while every touch comes without an ID and less than timeToAvoidReEntry after the one before |
| `TxRuns.ReEntryExactlyAfterLapse` | services/tbtxstore.go:160-177 | The next addition without an ID is refused as already seen if and only if it comes within timeToAvoidReEntry of the last touch; otherwise it stores the hash |
| `TxRuns.GuardedStaysBarred` | services/tbtxstore.go:337-343 | Along such touches the expiry in the history is exactly the last touch plus timeToAvoidReEntry |
| `TxRuns.ProtectedNotForwarded` | nodes/gateway.go:186-213 | While so protected the hash is not forwarded again |
| `TxRuns.ForwardedOncePerStay` | nodes/gateway.go:186-213 | Over any run mixing additions, lookups, removals and cleanings, between two forwardings of a hash it was out of the store |
| `TxRuns.ForwardedExactlyOncePerStay` | nodes/gateway.go:186-213 | Over any stay of a hash in the store, from its absence on, there is exactly one forwarding if content has arrived, and none if not |
| `TxRuns.ForwardsIff` | nodes/gateway.go:186-213 | An addition is forwarded if and only if it brings a hash its first content |
| `TxRuns.ContentIsWriteOnce` | types/tbtransaction.go:99-106 | While a hash stays stored its content, once set, does not change |
| `TxCleanup.CleanLeavesNinetyPercent` | services/tbtxstore.go:217-282 | A network of more than 200,000 transactions with non-negative ages and distinct add times keeps at most 180,000 of them, though ages are truncated to seconds |
| `TxCleanup.CleanLeavesExactly` | services/tbtxstore.go:217-282 | What a full network keeps: if the cutoff rules, exactly the transactions younger than it in whole seconds and those at it to the nanosecond; otherwise exactly those no older than maxTxAge; lacking IDs apart |
| `TxCleanup.CleanKeepsExactly` | services/tbtxstore.go:217-282 | In any network a transaction is kept if and only if it is no older than maxTxAge, does not lack an ID past noTxIDAge, and, where the network has more than 200,000, is no older than the age in whole seconds that ranks at 180,000 |
| `TxCleanup.CleanBars` | services/tbtxstore.go:250-272 | What goes is barred for the full time and its IDs find nothing; no other hash or ID is touched |
| `TxCleanup.SecondsTruncates` | services/tbtxstore.go:223-231 | Ages are cut to whole seconds towards 0 |
| `TxCleanup.NinetyPercentIff` | services/tbtxstore.go:217-282 | A full network with non-negative ages ends at or below 180,000 if and only if maxTxAge lies below the cutoff, or the younger transactions and those at the cutoff, lacking IDs apart, number at most 180,000 |
| `TxCleanup.CleanLeaves` | services/tbtxstore.go:217-282 | In particular fewer than 180,000, plus those at the cutoff to the nanosecond |
| `TxCleanup.BurstSurvives` | services/tbtxstore.go:243-256 | Distinct times are needed: a network added all at this moment is kept whole, however large |
| `TxCleanup.CleanConserves` | services/tbtxstore.go:275-281 | Count before is count after plus count cleaned |
| `TxCleanup.SortedAgeIsCutoff` | services/tbtxstore.go:239-243 | Element 179,999 of the sorted ages is the unique age with fewer than 180,000 ages below it and at least 180,000 at or below it |
| `TxCleanup.CutoffUnique` | services/tbtxstore.go:239-243 | There is one such age at most |
| `TxCleanup.CutoffExists` | services/tbtxstore.go:239-243 | There is one whenever the network has 180,000 members |
| `TxCleanup.AscendingRank` | services/tbtxstore.go:239-243 | In sorted order, place k holds at least a if and only if no more than k ages are below a |
| `TxCleanup.SortIntsCounts` | services/tbtxstore.go:239-239 | Sorting keeps the number of ages below any bound |
| `TxCleanup.AgesAlongAll` | services/tbtxstore.go:223-231 | One pass over the store collects, per network, exactly its members and their ages |
| `TxCleanup.IDsAlongAll` | services/tbtxstore.go:264-272 | One pass hands out exactly the networks that lose transactions, each with the IDs these listed |
| `TxCleanup.IDsAlongOnce` | services/tbtxstore.go:264-272 | No ID is handed out twice, if none is listed twice |
| `TxCleanup.ShouldGoIffDoomed` | services/tbtxstore.go:250-264 | The per-transaction test removes exactly the transactions older than their network maximum, and those past the no-ID age without an ID |
| `TxStore.WithoutTwice` | services/tbtxstore.go:127-131 | Removing one set of hashes and then another is removing both: the order of removal does not matter |
| `TxStore.WithoutOne` | services/tbtxstore.go:80-100 | Removing one stored hash takes exactly its entry and its listed IDs, and files its protection |
| `TxStore.WithoutNone` | services/tbtxstore.go:80-100 | Removing what is not stored changes nothing, the history included |
| `TbTxStore.TbTransaction.constructor` | types/tbtransaction.go:22-28 | A new transaction has neither content nor IDs |
| `TbTxStore.TbTransaction.AddTxID` | types/tbtransaction.go:84-96 | Appends the ID unless it is empty or listed, and tells which |
| `TbTxStore.TbTransaction.SetContent` | types/tbtransaction.go:99-106 | Sets the content only the first time and only if there is some, and tells which |
| `TbTxStore.TbTxStore.constructor` | services/tbtxstore.go:39-53 | A new store is empty and shares the given history |
| `TbTxStore.TbTxStore.Add` | services/tbtxstore.go:148-208 | New store and result for each of the exits: too old, already seen, new, known |
| `TbTxStore.TbTxStore.Enter` | services/tbtxstore.go:179-207 | The part of an addition that reaches the store |
| `TbTxStore.TbTxStore.SetIfAbsent` | services/tbtxstore.go:179-191 | A new object only if the hash is not stored |
| `TbTxStore.TbTxStore.Fill` | services/tbtxstore.go:193-205 | ID and content are set in place, and a new ID is indexed |
| `TbTxStore.TbTxStore.RefreshSeenTx` | services/tbtxstore.go:337-343 | A live hash is refiled for the full time, any other is left alone |
| `TbTxStore.TbTxStore.Remove` | services/tbtxstore.go:80-100 | The specified removal of one hash; other transactions are untouched |
| `TbTxStore.TbTxStore.RemoveHashes` | services/tbtxstore.go:127-131 | The specified removal of the listed hashes, repetitions included |
| `TbTxStore.TbTxStore.RemoveTxIDs` | services/tbtxstore.go:103-112 | The specified removal of the hashes the listed IDs lead to |
| `TbTxStore.TbTxStore.GetTxByID` | services/tbtxstore.go:115-124 | Finds the transaction the index and the store agree on |
| `TbTxStore.TbTxStore.Get` | services/tbtxstore.go:311-321 | Nothing for a live hash, which is refreshed; otherwise the stored transaction |
| `TbTxStore.TbTxStore.Known` | services/tbtxstore.go:324-326 | Whether the hash is live; refreshes it |
| `TbTxStore.TbTxStore.Clear` | services/tbtxstore.go:68-72 | Both maps are emptied, the history stays |
| `TbTxStore.TbTxStore.CollectAges` | services/tbtxstore.go:223-231 | The ages in whole seconds, per network |
| `TbTxStore.TbTxStore.MaxAges` | services/tbtxstore.go:233-246 | Each network gets its maximum age: the cutoff if it is over-full, at most maxTxAge |
| `TbTxStore.TbTxStore.RemoveAged` | services/tbtxstore.go:250-272 | Exactly the transactions that fail the test go, with full protection, are counted, and their IDs noted |
| `TbTxStore.TbTxStore.Clean` | services/tbtxstore.go:217-282 | The specified cleanup; the count returned is the number removed, and the IDs returned per network are those that its removed transactions listed |
| `TbTxStore.TbTxStore.Protect` | services/tbtxstore.go:87-95 | The three kinds of protection file no expiry, 30 minutes, or the full time |
| `TbTxStore.TbTxStore.UnindexAll` | services/tbtxstore.go:83-85 | Exactly the listed IDs leave the index |
| `TbTxStore.TbTxStore.IterBuffered` | services/tbtxstore.go:223-223 | A pass meets each stored transaction once |
| `TbTxStore.TbTxStore.MaxAgeOf` | services/tbtxstore.go:233-246 | The maximum age of one network, from its sorted ages |
| `TbTxStore.TbTxStore.CleanNext` | services/tbtxstore.go:250-272 | One transaction of the pass goes or stays, and its IDs are noted if it goes |
| `TbTxStore.TbTxStore.Survey` | services/tbtxstore.go:218-248 | The first two passes: the transactions met and the maximum ages that tell which are to go |
| `TbTxStore.TbTxStore.RemoveIfAged` | services/tbtxstore.go:250-272 | One transaction is removed with full protection if it fails the test, under one count or the other |
| `Gateway.Node.ProcessTransaction` | nodes/gateway.go:186-213 | The message is stored at the present time, and goes to relays and to the blockchain node only if it brought new content, and not back to where it came from |
| `Gateway.FirstContentIsNews` | nodes/gateway.go:186-213 | A message brings content if and only if it has some, the hash has none, and the hash is not barred or the message has an ID |
| `Gateway.Node.Forward` | nodes/gateway.go:196-211 | A message is not sent back to the kind of connection it came by |
| `ShortTimestamp.ExactIff` | tbmessage/tx.go:107-133 | For any two clocks, the sent time comes back exact to 1024 ns if and only if its truncation is within 2^42 - 3.6*10^12 ns of the receiver clock, or within the hour and in the same 2^42 ns period (distances as the 64-bit difference) |
| `ShortTimestamp.RestoredWithinHour` | tbmessage/tx.go:120-133 | Whatever was sent and whatever the clock, the result is less than one hour from the receiver clock (as the 64-bit difference) |
| `ShortTimestamp.ReachIsTight` | tbmessage/tx.go:120-133 | One nanosecond beyond the bound, either way, some time is lost |
| `ShortTimestamp.WireRoundTrip` | tbmessage/tx.go:84-133 | Packed at any place of a buffer and unpacked from it, a time in reach is restored |
| `ShortTimestamp.MergeIsArithmetic` | tbmessage/tx.go:107-115 | Mask and OR amount to replacing the low 42 bits of the receiver clock |
| `ShortTimestamp.MaskKeepsHigh` | tbmessage/tx.go:110-114 | The mask keeps exactly the high 22 bits |
| `ShortTimestamp.RestoreIsCorrected` | tbmessage/tx.go:107-133 | For any clock, the result is the merge brought into the right period by one choice, wrapped at the end |
| `ShortTimestamp.CorrectIsCorrected` | tbmessage/tx.go:120-132 | For any clock, the two sequential corrections on 64 bits act as one choice of period, wrapped at the end |
| `ShortTimestamp.PackTimestamp` | tbmessage/tx.go:84-86 | Four little-endian bytes of the shifted time, nothing else written |
| `ShortTimestamp.UnpackTimestamp` | tbmessage/tx.go:107-133 | The statements from the read of four bytes to the corrected result |
| `BroadcastCodec.RoundTrip` | tbmessage/broadcast.go:73-139 | Unpacking a packed broadcast of total size below 2^32 restores hash, network, source, type, flag, block and IDs |
| `BroadcastCodec.PackedLength` | tbmessage/header.go:16-25 | The length field of a packed message is its length minus HeaderLen |
| `BroadcastCodec.EncodedHeader` | tbmessage/broadcast_header.go:60-86 | Every header field stands where unpacking reads it |
| `BroadcastCodec.EncodedBody` | tbmessage/broadcast.go:73-139 | Every body field stands where unpacking reads it |
| `BroadcastCodec.PackedBytes` | tbmessage/broadcast.go:73-97 | A packed message byte for byte: magic, "broadcast" padded to 12 bytes, sizes and numbers in little-endian, the body, and the control byte 1 |
| `BroadcastCodec.IDBytes` | tbmessage/broadcast.go:91-95 | Each ID takes four little-endian bytes |
| `BroadcastCodec.DecodesIff` | tbmessage/broadcast.go:100-139 | A buffer decodes if and only if it is long enough for the sizes that stand in it |
| `BroadcastCodec.DecodedFields` | tbmessage/broadcast.go:100-139 | What is decoded from where; any flag but 0 means encrypted |
| `BroadcastCodec.IDsRoundTrip` | tbmessage/broadcast.go:91-135 | The list of IDs survives its four-byte form |
| `BroadcastCodec.TrimZeros` | tbmessage/header.go:28-31 | Trimming the padded type gives the type |
| `BroadcastCodec.Broadcast.NewBlockBroadcast` | tbmessage/broadcast.go:18-30 | A block broadcast: zero source, type "blok", not encrypted |
| `BroadcastCodec.Broadcast.Pack` | tbmessage/broadcast.go:73-97 | All writes are in bounds, and the buffer left is the specified encoding, control byte last |
| `BroadcastCodec.Broadcast.PackHeader` | tbmessage/header.go:16-25 | Magic, type, length and control byte; the bytes between are untouched |
| `BroadcastCodec.Broadcast.PackBroadcastHeader` | tbmessage/broadcast_header.go:60-69 | The first 72 bytes and the control byte |
| `BroadcastCodec.Broadcast.PackBody` | tbmessage/broadcast.go:79-95 | Type, flag, sizes, block and IDs, each where the one before ends |
| `BroadcastCodec.Broadcast.PackIDs` | tbmessage/broadcast.go:91-95 | The loop over the IDs writes only their bytes |
| `BroadcastCodec.Broadcast.Unpack` | tbmessage/broadcast.go:100-139 | Refuses short buffers, otherwise fills in the fields, appending the IDs to those present |
| `BroadcastCodec.Broadcast.UnpackIDs` | tbmessage/broadcast.go:129-136 | The loop over the IDs appends exactly those in the buffer |
| `BroadcastCodec.Broadcast.PackFixed` | tbmessage/broadcast.go:77-87 | Type, flag and block size, 13 bytes, nothing else written |
| `BroadcastCodec.Broadcast.PackVariable` | tbmessage/broadcast.go:88-95 | Block, count and IDs behind them |
| `BroadcastCodec.Broadcast.UnpackBlockAndIDs` | tbmessage/broadcast.go:116-138 | Block and IDs, or the error of the length check that fails |
| `Stream.EndToEnd` | connections/sslconn.go:66-202 | For any list of broadcasts of which the socket takes the first n: packed, written back to back, cut anywhere, reassembled and unpacked, these n come out as they went in, in order, with nothing left in the buffer |
| `Stream.ChunksDoNotMatter` | connections/sslconn.go:173-202 | Any cutting of a stream into reads yields the messages of the whole stream and the same remainder |
| `Stream.FramesPartition` | connections/sslconn.go:173-202 | The messages and the remainder are the stream, every message has its full length, and the remainder holds no complete message |
| `Stream.FramesResume` | connections/sslconn.go:173-202 | Bytes that arrive later only continue what was left over |
| `Stream.FrameStays` | connections/handler/tbconn.go:104-106 | A complete message is the same whatever follows it |
| `Stream.FramesOfMessages` | connections/sslconn.go:93-109 | The frames of packed broadcasts are those broadcasts |
| `Stream.SSLConn.constructor` | connections/sslconn.go:147-170 | An open connection with an empty buffer |
| `Stream.SSLConn.ReadMessages` | connections/sslconn.go:173-202 | One read hands over every complete message and keeps the rest; a failed read closes and keeps the buffer |
| `Stream.SSLConn.Write` | connections/sslconn.go:93-109 | Nothing goes out on a closed connection; a failed write closes it |
| `Stream.SSLConn.PackAndWrite` | connections/sslconn.go:93-109 | The packed bytes are appended to what was written |
| `Stream.SSLConn.SendLoop` | connections/sslconn.go:66-91 | The queued messages are packed and go out in order, up to the first failed write; what is written is their encodings |
| `Stream.SSLConn.SendNext` | connections/sslconn.go:93-109 | One message of the queue adds its encoding, or closes the connection |
| `Stream.RestIncomplete` | connections/sslconn.go:173-202 | What reassembly leaves in the buffer is no complete message |

## Left out

- `BdnRelay.NeverSentTwice`: assumes that no event wraps the head from 2^64 - 1 to 0; where one does, the property can fail (`ExampleRuns.WrapSendsTwice`).
- `ChainRuns.NeverConfirmedTwice`: assumes the same, and the same run shows that it can fail.
- `HeaderQueries.ByNumberSound`: assumes that the chain has at most 2^63 refs (cleanup cuts it to maxSize), and, for heights exact beyond modulo 2^64, that no ref is above the head; `ChainRuns.RunHighestIff` says which runs keep it so.
- `HeaderQueries.ByHashSound`: assumes the same.
- `ChainRuns.RunQueriesSound`: assumes the same.
- `HeaderQueries.BackwardComplete`: assumes a strict chain of at most 2^63 refs, as the intended step keeps it.
- `PeerQueue.RunKeepsLead`: assumes confirmed heads below 2^64 - 1; `PeerQueue.RunLeadsIff` has the exact condition and `PeerQueue.LeadIsLost` is a failing run.
- `TbTxStore.TbTxStore.Clean`: its counters per network are not modelled, the total is.
- `Stream.SSLConn.SendLoop`: the channel is a sequence, and what is handed to the buffered writer counts as written; the flush is not modelled.
- `Backend.Handler.ProcessBlock`: passing the block on to other peers is not modelled; whether its timestamp is too old is an input.
- `TxRuns.IndexIsFullScan`: the owner of each ID also covers the ID the assigner would hand out; where the assigner is not asked that input is 0.
- `TbTxStore.TbTxStore.Add`: locks, and the branch for a transaction deleted by another goroutine in mid-call, are not modelled.
- `BroadcastCodec.Broadcast.Unpack`: where the bytes make the code slice out of range the model has a separate outcome, which the method's precondition excludes; allocation of the ID list is not modelled.
- `Stream.SSLConn.ReadMessages`: one connection lifetime; a reconnect does not reset the receive buffer.
- `PeerQueue.Peer.HandleNewBlock`: a failed send to the peer is only logged, so a block counts as sent when it is handed to the peer.
- `EthChain.Chain.UpdateChainState`: reserving memory for the refs of a very long gap, which may fail, is not modelled.
- `BroadcastCodec.Broadcast.UnpackBlockAndIDs`: the block is a value; in the code it stays a slice of the received buffer.
- `EthChain.Chain.Clean`: its return values (lowest, highest and number cleaned) are only logged and not modelled.
- InitializeDifficulty and SetTotalDifficulty: the first files a nil header at height 0, the second converts big integers.
- GetBodies: a single lookup.
- Unpacking of malformed broadcasts beyond their outcome, and the whole transaction message.
- SetIfAbsent and Count of the history: they do observe cleaning, and the store uses neither.
- Iter and HasContent of the store: a filter by age, and a lookup through Get.
- Block and transaction conversion, RLP, Keccak, signatures, sockets, TLS, tickers, goroutines, gRPC, logging, configuration.
- `nodes/grpc_gateway.go`: a copy of `nodes/gateway.go`.
