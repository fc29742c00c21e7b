/** What holds after every run of events. */
module ChainRuns {
  import opened GoInts
  import opened EthTypes
  import opened ForkChoice
  import opened ChainStore
  import opened BdnRelay
  import HeaderQueries

  /**
   * The maps agree with each other and with the refs, adjacent refs are identical or parent-linked,
   * and no ref lies deeper in heights than in positions.
   */
  ghost predicate ChainInv(s: ChainData) {
    Consistent(s) && HashLinked(s.refs) && Shallow(s.refs)
  }

  lemma AddBlockKeepsChainInv(cfg: Config, s: ChainData, block: Block, difficulty: Option<nat>, source: BlockSource)
    requires Sane(cfg) && ChainInv(s)
    ensures ChainInv(AddBlock(cfg, s, block, difficulty, source).0)
  {
    var s1 := Receive(s, block, difficulty, source);
    ReceiveKeepsConsistent(s, block, difficulty, source);
    AddBlockKeepsConsistent(cfg, s, block, difficulty, source);
    UpdateKeepsShallow(cfg, s1.refs, s1.headers, block.header);
    UpdateKeepsHashLinked(cfg, s1.refs, s1.headers, block.header);
  }

  lemma ConfirmBlockKeepsChainInv(cfg: Config, s: ChainData, hash: Hash)
    requires Sane(cfg) && ChainInv(s)
    ensures ChainInv(ConfirmBlock(cfg, s, hash).0)
  {
    ConfirmBlockKeepsConsistent(cfg, s, hash);
    if hash in s.metadata {
      UpdateKeepsShallow(cfg, s.refs, s.headers, hash.header);
      UpdateKeepsHashLinked(cfg, s.refs, s.headers, hash.header);
    }
  }

  lemma CleanKeepsLinks(s: ChainData, maxSize: nat)
    requires HashLinked(s.refs) && Shallow(s.refs)
    ensures HashLinked(Clean(s, maxSize).refs) && Shallow(Clean(s, maxSize).refs)
  {
  }

  lemma CleanKeepsChainInv(s: ChainData, maxSize: nat)
    requires ChainInv(s) && maxSize < TWO_63
    ensures ChainInv(Clean(s, maxSize))
  {
    CleanKeepsConsistent(s, maxSize);
    CleanKeepsLinks(s, maxSize);
  }

  /** Only flags differ. */
  ghost predicate SameButFlags(m: map<Hash, Metadata>, m': map<Hash, Metadata>) {
    m.Keys == m'.Keys && forall h :: h in m ==> m'[h].height == m[h].height
  }

  /** Another chain with the same refs and storage, flags apart. */
  ghost predicate SameChain(s: ChainData, s': ChainData) {
    s' == s.(metadata := s'.metadata) && SameButFlags(s.metadata, s'.metadata)
  }

  lemma FlagsKeepConsistent(s: ChainData, s': ChainData)
    requires Consistent(s) && SameChain(s, s')
    ensures Consistent(s')
  {
  }

  lemma {:induction false} DeliverKeepsHeights(m: map<Hash, Metadata>, heads: seq<Hash>, accepted: set<Hash>)
    ensures SameButFlags(m, Deliver(m, heads, accepted).0)
  {
    if heads != [] {
      var older, oldest := heads[..|heads| - 1], heads[|heads| - 1];
      DeliverKeepsHeights(if oldest in accepted then MarkSent(m, oldest) else m, older, accepted);
    }
  }

  lemma SendHeadsKeepsChain(w: World, count: nat, accepted: set<Hash>)
    ensures SameChain(w.chain, SendHeads(w, count, accepted).chain)
  {
    DeliverKeepsHeights(w.chain.metadata, HashesOf(NewHeads(w.chain, 0, count).0), accepted);
  }

  /** The send loop and the confirm message change nothing but flags. */
  lemma SendConfirmedKeepsChain(cfg: Config, w: World, count: nat, accepted: set<Hash>, ok: bool)
    ensures SameChain(w.chain, SendConfirmed(cfg, w, count, accepted, ok).chain)
  {
    SendHeadsKeepsChain(w, count, accepted);
  }

  /** What an event offers is stored, and offered at its own number, in storage that agrees. */
  lemma ReadyIsStored(s: ChainData, e: Event)
    requires Consistent(s) && MovesHead(e)
    ensures var (s1, header) := Ready(s, e);
            && Consistent(s1) && s1.refs == s.refs
            && (header.Some? ==> Stored(s1.headers, header.value) && OfferedAt(s, e) == header.value.number)
  {
    if e.PeerBlock? {
      ReceiveKeepsConsistent(s, e.block, e.difficulty, Blockchain);
    }
  }

  lemma HandleKeepsChainInv(cfg: Config, s: ChainData, e: Event)
    requires Sane(cfg) && ChainInv(s) && MovesHead(e)
    ensures ChainInv(Handle(cfg, s, e).0)
  {
    if e.PeerBlock? {
      AddBlockKeepsChainInv(cfg, s, e.block, e.difficulty, Blockchain);
    } else {
      ConfirmBlockKeepsChainInv(cfg, s, e.hash);
    }
  }

  lemma StepKeepsChainInv(cfg: Config, w: World, e: Event)
    requires Sane(cfg) && ChainInv(w.chain)
    ensures ChainInv(Step(cfg, w, e).chain)
  {
    if MovesHead(e) {
      HandleKeepsChainInv(cfg, w.chain, e);
      var (chain, n) := Handle(cfg, w.chain, e);
      SendConfirmedKeepsChain(cfg, w.(chain := chain), n, e.accepted, e.confirmOk);
      FlagsKeepConsistent(chain, Step(cfg, w, e).chain);
    } else if e.Tick? {
      CleanKeepsChainInv(w.chain, cfg.maxSize);
    } else {
      AddBlockKeepsChainInv(cfg, w.chain, e.block, e.difficulty, BDN);
    }
  }

  /** After every run of events whatever, the maps and the refs agree, and the refs are hash-linked and shallow. */
  lemma {:induction false} RunKeepsChainInv(cfg: Config, events: seq<Event>)
    requires Sane(cfg)
    ensures ChainInv(Run(cfg, events).chain)
  {
    if events != [] {
      RunKeepsChainInv(cfg, events[..|events| - 1]);
      StepKeepsChainInv(cfg, Run(cfg, events[..|events| - 1]), events[|events| - 1]);
    }
  }

  // Linkage over a run

  /** The update that an event leads to, if any, neither wraps the head nor walks badly. */
  ghost predicate GoesWell(cfg: Config, s: ChainData, e: Event) {
    MovesHead(e) && s.refs != [] && Ready(s, e).1.Some? ==>
      !WrapsHead(s, e) && WalksWell(cfg, s.refs, Ready(s, e).0.headers, Ready(s, e).1.value)
  }

  lemma HandleKeepsLinkedIff(cfg: Config, s: ChainData, e: Event)
    requires Sane(cfg) && ChainInv(s) && Linked(s.refs) && MovesHead(e)
    ensures Linked(Handle(cfg, s, e).0.refs) <==> GoesWell(cfg, s, e)
  {
    var (s1, header) := Ready(s, e);
    ReadyIsStored(s, e);
    if header.Some? && s.refs != [] {
      UpdateKeepsLinkedIff(cfg, s1.refs, s1.headers, header.value);
    }
  }

  /** One event keeps the literal refs linked exactly when its update goes well. */
  lemma StepKeepsLinkedIff(cfg: Config, w: World, e: Event)
    requires Sane(cfg) && ChainInv(w.chain) && Linked(w.chain.refs)
    ensures Linked(Step(cfg, w, e).chain.refs) <==> GoesWell(cfg, w.chain, e)
  {
    if MovesHead(e) {
      HandleKeepsLinkedIff(cfg, w.chain, e);
      var (chain, n) := Handle(cfg, w.chain, e);
      SendConfirmedKeepsChain(cfg, w.(chain := chain), n, e.accepted, e.confirmOk);
    }
  }

  lemma LinkedNextIff(cfg: Config, events: seq<Event>, k: nat)
    requires Sane(cfg) && k < |events| && Linked(ChainAt(cfg, events, k).refs)
    ensures Linked(ChainAt(cfg, events, k + 1).refs) <==> GoesWell(cfg, ChainAt(cfg, events, k), events[k])
  {
    assert events[..k + 1][..k] == events[..k];
    RunKeepsChainInv(cfg, events[..k]);
    StepKeepsLinkedIff(cfg, Run(cfg, events[..k]), events[k]);
  }

  lemma {:induction false} LinkedUpTo(cfg: Config, events: seq<Event>, n: nat)
    requires Sane(cfg) && n <= |events|
    requires forall k :: 0 <= k < n ==> GoesWell(cfg, ChainAt(cfg, events, k), events[k])
    ensures Linked(ChainAt(cfg, events, n).refs)
  {
    if n > 0 {
      LinkedUpTo(cfg, events, n - 1);
      LinkedNextIff(cfg, events, n - 1);
    }
  }

  /** All states of a run have linked refs exactly when each of its updates goes well. */
  lemma RunLinkedIff(cfg: Config, events: seq<Event>)
    requires Sane(cfg)
    ensures (forall k :: 0 <= k <= |events| ==> Linked(ChainAt(cfg, events, k).refs))
            <==> (forall k :: 0 <= k < |events| ==> GoesWell(cfg, ChainAt(cfg, events, k), events[k]))
  {
    if forall k :: 0 <= k <= |events| ==> Linked(ChainAt(cfg, events, k).refs) {
      forall k | 0 <= k < |events| ensures GoesWell(cfg, ChainAt(cfg, events, k), events[k]) {
        LinkedNextIff(cfg, events, k);
      }
    }
    if forall k :: 0 <= k < |events| ==> GoesWell(cfg, ChainAt(cfg, events, k), events[k]) {
      forall k | 0 <= k <= |events| ensures Linked(ChainAt(cfg, events, k).refs) {
        LinkedUpTo(cfg, events, k);
      }
    }
  }

  lemma ChildrenNumberedGoWell(cfg: Config, s: ChainData, e: Event)
    requires Sane(cfg) && ChainInv(s)
    requires MovesHead(e) ==> ChildrenNumbered(s.refs, Ready(s, e).0.headers)
    ensures GoesWell(cfg, s, e)
  {
    if MovesHead(e) && s.refs != [] && Ready(s, e).1.Some? {
      var (s1, header) := Ready(s, e);
      ReadyIsStored(s, e);
      assert GoodRef(s1.headers, s1.refs[0]);
      ChildrenNumberedWalkWell(cfg, s.refs, s1.headers, header.value);
    }
  }

  /** In particular the refs stay linked while, at each event, the stored headers are numbered as they should be. */
  lemma RunKeepsLinked(cfg: Config, events: seq<Event>)
    requires Sane(cfg)
    requires forall k :: 0 <= k < |events| && MovesHead(events[k]) ==>
               ChildrenNumbered(ChainAt(cfg, events, k).refs, Ready(ChainAt(cfg, events, k), events[k]).0.headers)
    ensures Linked(Run(cfg, events).chain.refs)
  {
    assert events[..|events|] == events;
    forall k | 0 <= k < |events| ensures GoesWell(cfg, ChainAt(cfg, events, k), events[k]) {
      RunKeepsChainInv(cfg, events[..k]);
      ChildrenNumberedGoWell(cfg, ChainAt(cfg, events, k), events[k]);
    }
    LinkedUpTo(cfg, events, |events|);
  }

  // The head over a run

  /** From any state whatever, one event leaves a head, and lowers it only if it wraps it. */
  lemma StepLowersHeadIff(cfg: Config, w: World, e: Event)
    requires cfg.maxSize > 0 && w.chain.refs != []
    ensures var refs := Step(cfg, w, e).chain.refs;
            refs != [] && (refs[0].height < w.chain.refs[0].height <==> WrapsHead(w.chain, e))
    ensures e.BdnBlock? ==> Step(cfg, w, e).chain.refs == w.chain.refs
  {
    if MovesHead(e) {
      var (s1, header) := Ready(w.chain, e);
      if header.Some? {
        HeadDropsOnlyByWrap(cfg, s1.refs, s1.headers, OfferedAt(w.chain, e), HashOf(header.value), header.value.parentHash);
      }
      var (chain, n) := Handle(cfg, w.chain, e);
      SendConfirmedKeepsChain(cfg, w.(chain := chain), n, e.accepted, e.confirmOk);
    }
  }

  /** Over any run in which no event wraps the head there is a head once there was one, and its height never drops. */
  lemma {:induction false} HeadNeverDrops(cfg: Config, events: seq<Event>, earlier: nat)
    requires cfg.maxSize > 0 && earlier <= |events| && NoneWraps(cfg, events, earlier)
    requires Run(cfg, events[..earlier]).chain.refs != []
    ensures Run(cfg, events).chain.refs != []
    ensures Run(cfg, events).chain.refs[0].height >= Run(cfg, events[..earlier]).chain.refs[0].height
  {
    if earlier == |events| {
      assert events[..earlier] == events;
    } else {
      var before := events[..|events| - 1];
      assert before[..earlier] == events[..earlier];
      NoneWrapsBefore(cfg, events, earlier);
      HeadNeverDrops(cfg, before, earlier);
      StepLowersHeadIff(cfg, Run(cfg, before), events[|events| - 1]);
    }
  }

  /** Every block of the run by itself, and so every header it leads to in the store, is free of the wrap. */
  ghost predicate BringsNoWrap(e: Event) {
    e.PeerBlock? || e.BdnBlock? ==> NoWrap(e.block.header)
  }

  lemma ReceiveStoresNoWrap(s: ChainData, block: Block, difficulty: Option<nat>, source: BlockSource)
    requires StoresNoWrap(s.headers) && NoWrap(block.header)
    ensures StoresNoWrap(Receive(s, block, difficulty, source).headers)
  {
  }

  lemma HandleStoresNoWrap(cfg: Config, s: ChainData, e: Event)
    requires StoresNoWrap(s.headers) && BringsNoWrap(e) && MovesHead(e)
    ensures StoresNoWrap(Handle(cfg, s, e).0.headers)
  {
    if e.PeerBlock? {
      ReceiveStoresNoWrap(s, e.block, e.difficulty, Blockchain);
    }
  }

  lemma StepStoresNoWrap(cfg: Config, w: World, e: Event)
    requires StoresNoWrap(w.chain.headers) && BringsNoWrap(e)
    ensures StoresNoWrap(Step(cfg, w, e).chain.headers)
  {
    if MovesHead(e) {
      var (chain, n) := Handle(cfg, w.chain, e);
      HandleStoresNoWrap(cfg, w.chain, e);
      SendConfirmedKeepsChain(cfg, w.(chain := chain), n, e.accepted, e.confirmOk);
    } else if e.BdnBlock? {
      ReceiveStoresNoWrap(w.chain, e.block, e.difficulty, BDN);
    }
  }

  lemma {:induction false} RunStoresNoWrap(cfg: Config, events: seq<Event>)
    requires forall k :: 0 <= k < |events| ==> BringsNoWrap(events[k])
    ensures StoresNoWrap(Run(cfg, events).chain.headers)
  {
    if events != [] {
      RunStoresNoWrap(cfg, events[..|events| - 1]);
      StepStoresNoWrap(cfg, Run(cfg, events[..|events| - 1]), events[|events| - 1]);
    }
  }

  lemma NoWrapSparesHead(s: ChainData, e: Event)
    requires Consistent(s) && StoresNoWrap(s.headers) && BringsNoWrap(e)
    ensures !WrapsHead(s, e)
  {
    if MovesHead(e) && Ready(s, e).1.Some? {
      ReadyIsStored(s, e);
      NoWrapNotOnto(s.headers, s.refs, Ready(s, e).1.value);
    }
  }

  /** No event wraps the head when no block of the run is numbered 0 on a parent numbered 2^64 - 1. */
  lemma NoWrapNeverWrapsHead(cfg: Config, events: seq<Event>)
    requires Sane(cfg) && forall k :: 0 <= k < |events| ==> BringsNoWrap(events[k])
    ensures NoneWraps(cfg, events, 0)
  {
    forall k | 0 <= k < |events| ensures !WrapsHead(ChainAt(cfg, events, k), events[k]) {
      RunKeepsChainInv(cfg, events[..k]);
      RunStoresNoWrap(cfg, events[..k]);
      NoWrapSparesHead(ChainAt(cfg, events, k), events[k]);
    }
  }

  // Header queries and the highest ref

  /** After every run, header queries are sound, by number and by hash. */
  lemma RunQueriesSound(cfg: Config, events: seq<Event>, start: HeaderQueries.HashOrNumber, count: nat, skip: I64,
          reverse: bool)
    requires Sane(cfg) && 0 < |Run(cfg, events).chain.refs| <= TWO_63
    ensures var s := Run(cfg, events).chain;
            if start.number > 0 then HeaderQueries.SoundByNumber(s, start, count, skip, reverse)
            else HeaderQueries.SoundByHash(s, start.hash, count, skip, reverse)
  {
    RunKeepsChainInv(cfg, events);
    if start.number > 0 {
      HeaderQueries.ByNumberSound(Run(cfg, events).chain, start, count, skip, reverse);
    } else {
      HeaderQueries.ByHashSound(Run(cfg, events).chain, start.hash, count, skip, reverse);
    }
  }

  /** And they answer in full what the refs and the stored headers determine; a lookup by hash finds every stored block. */
  lemma RunQueriesAnswer(cfg: Config, events: seq<Event>, start: HeaderQueries.HashOrNumber, count: nat, skip: I64,
          reverse: bool)
    requires Sane(cfg)
    ensures var s := Run(cfg, events).chain;
            && (0 < |s.refs| <= TWO_63 ==> HeaderQueries.Answers(s, start, count, skip, reverse))
            && (start.number == 0 && count <= 1 ==>
                  HeaderQueries.GetHeaders(s, start, count, skip, reverse)
                  == if start.hash.HashOf? && start.hash in s.metadata then HeaderQueries.Headers([start.hash.header])
                     else HeaderQueries.Failed(if start.hash == ZERO_HASH then HeaderQueries.ErrInvalidRequest else HeaderQueries.ErrUnknownHash))
  {
    var s := Run(cfg, events).chain;
    RunKeepsChainInv(cfg, events);
    if 0 < |s.refs| <= TWO_63 {
      HeaderQueries.QueryAnswers(s, start, count, skip, reverse);
    }
    if start.number == 0 && count <= 1 {
      HeaderQueries.ByHashAnswers(s, start.hash, count, skip, reverse);
    }
  }

  /** The update that an event leads to, if any, neither wraps the head nor walks above it. */
  ghost predicate StaysUnder(cfg: Config, s: ChainData, e: Event) {
    MovesHead(e) && s.refs != [] && Ready(s, e).1.Some? ==>
      !WrapsHead(s, e) && StaysUnderHead(cfg, s.refs, Ready(s, e).0.headers, Ready(s, e).1.value)
  }

  lemma HandleKeepsHighestIff(cfg: Config, s: ChainData, e: Event)
    requires Sane(cfg) && ChainInv(s) && HeadIsHighest(s.refs) && MovesHead(e)
    ensures HeadIsHighest(Handle(cfg, s, e).0.refs) <==> StaysUnder(cfg, s, e)
  {
    var (s1, header) := Ready(s, e);
    ReadyIsStored(s, e);
    if header.Some? && s.refs != [] {
      UpdateKeepsHighestIff(cfg, s1.refs, s1.headers, header.value);
    }
  }

  lemma StepKeepsHighestIff(cfg: Config, w: World, e: Event)
    requires Sane(cfg) && ChainInv(w.chain) && HeadIsHighest(w.chain.refs)
    ensures HeadIsHighest(Step(cfg, w, e).chain.refs) <==> StaysUnder(cfg, w.chain, e)
  {
    if MovesHead(e) {
      HandleKeepsHighestIff(cfg, w.chain, e);
      var (chain, n) := Handle(cfg, w.chain, e);
      SendConfirmedKeepsChain(cfg, w.(chain := chain), n, e.accepted, e.confirmOk);
    }
  }

  lemma HighestNextIff(cfg: Config, events: seq<Event>, k: nat)
    requires Sane(cfg) && k < |events| && HeadIsHighest(ChainAt(cfg, events, k).refs)
    ensures HeadIsHighest(ChainAt(cfg, events, k + 1).refs) <==> StaysUnder(cfg, ChainAt(cfg, events, k), events[k])
  {
    assert events[..k + 1][..k] == events[..k];
    RunKeepsChainInv(cfg, events[..k]);
    StepKeepsHighestIff(cfg, Run(cfg, events[..k]), events[k]);
  }

  lemma {:induction false} HighestUpTo(cfg: Config, events: seq<Event>, n: nat)
    requires Sane(cfg) && n <= |events|
    requires forall k :: 0 <= k < n ==> StaysUnder(cfg, ChainAt(cfg, events, k), events[k])
    ensures HeadIsHighest(ChainAt(cfg, events, n).refs)
  {
    if n > 0 {
      HighestUpTo(cfg, events, n - 1);
      HighestNextIff(cfg, events, n - 1);
    }
  }

  /** The head is the highest ref in all states of a run exactly when none of its updates wraps it or walks above it. */
  lemma RunHighestIff(cfg: Config, events: seq<Event>)
    requires Sane(cfg)
    ensures (forall k :: 0 <= k <= |events| ==> HeadIsHighest(ChainAt(cfg, events, k).refs))
            <==> (forall k :: 0 <= k < |events| ==> StaysUnder(cfg, ChainAt(cfg, events, k), events[k]))
  {
    if forall k :: 0 <= k <= |events| ==> HeadIsHighest(ChainAt(cfg, events, k).refs) {
      forall k | 0 <= k < |events| ensures StaysUnder(cfg, ChainAt(cfg, events, k), events[k]) {
        HighestNextIff(cfg, events, k);
      }
    }
    if forall k :: 0 <= k < |events| ==> StaysUnder(cfg, ChainAt(cfg, events, k), events[k]) {
      forall k | 0 <= k <= |events| ensures HeadIsHighest(ChainAt(cfg, events, k).refs) {
        HighestUpTo(cfg, events, k);
      }
    }
  }

  /** In terms of blocks alone: it is when no block of the run is numbered 0 on a parent numbered 2^64 - 1. */
  lemma NoWrapKeepsHighest(cfg: Config, events: seq<Event>)
    requires Sane(cfg) && forall k :: 0 <= k < |events| ==> BringsNoWrap(events[k])
    ensures HeadIsHighest(Run(cfg, events).chain.refs)
  {
    assert events[..|events|] == events;
    NoWrapNeverWrapsHead(cfg, events);
    forall k | 0 <= k < |events| ensures StaysUnder(cfg, ChainAt(cfg, events, k), events[k]) {
      RunKeepsChainInv(cfg, events[..k]);
      RunStoresNoWrap(cfg, events[..k]);
      NoWrapStaysUnder(cfg, ChainAt(cfg, events, k), events[k]);
    }
    HighestUpTo(cfg, events, |events|);
  }

  lemma NoWrapStaysUnder(cfg: Config, s: ChainData, e: Event)
    requires Sane(cfg) && ChainInv(s) && StoresNoWrap(s.headers) && BringsNoWrap(e)
    ensures StaysUnder(cfg, s, e)
  {
    if MovesHead(e) && s.refs != [] && Ready(s, e).1.Some? {
      NoWrapSparesHead(s, e);
      ReadyIsStored(s, e);
      if e.PeerBlock? {
        ReceiveStoresNoWrap(s, e.block, e.difficulty, Blockchain);
      }
      NoWrapStaysUnderHead(cfg, s.refs, Ready(s, e).0.headers, Ready(s, e).1.value);
    }
  }

  // The order of the sends

  /**
   * After any run, what the send loop of the next event hands to the BDN goes out ancestors first,
   * and in ascending order of number unless the new refs go down past height 0.
   */
  lemma SendsAscend(cfg: Config, events: seq<Event>, e: Event)
    requires Sane(cfg) && MovesHead(e)
    ensures var w, w' := Run(cfg, events), Step(cfg, Run(cfg, events), e);
            var (s, n) := Handle(cfg, w.chain, e);
            && w.sent <= w'.sent && Rising(w'.sent[|w.sent|..], hash => Lineage(hash))
            && (s.refs != [] && n <= s.refs[0].height + 1 ==> Rising(w'.sent[|w.sent|..], NumberOf))
  {
    var w := Run(cfg, events);
    var (s, n) := Handle(cfg, w.chain, e);
    RunKeepsChainInv(cfg, events);
    if WrapsHead(w.chain, e) {
      WrapSendsNothing(cfg, w, e);
    } else {
      ChainInvIsCore(w.chain);
      HandleRises(cfg, w.chain, e);
      SendHeadsAscends(cfg, w, s, n, e.accepted);
    }
  }

  lemma WrapSendsNothing(cfg: Config, w: World, e: Event)
    requires WrapsHead(w.chain, e)
    ensures Step(cfg, w, e).sent == w.sent
  {
    var (s, n) := Handle(cfg, w.chain, e);
    assert n == 0 && NewHeads(s, 0, 0) == ([], NoError);
  }

  // The error branches of the send loop

  lemma HeadsServed(s: ChainData, n: nat)
    requires Consistent(s) && n <= |s.refs|
    ensures var (heads, err) := NewHeads(s, 0, n);
            && err == NoError && |heads| <= n
            && (|heads| < n ==> s.refs[|heads|].hash in s.metadata && s.metadata[s.refs[|heads|].hash].sentToBDN)
  {
    forall k | 0 <= k < |s.refs| ensures s.refs[k].hash in s.metadata {
      assert GoodRef(s.headers, s.refs[k]);
    }
    NewHeadsComplete(s, 0, n);
  }

  /** As many positions below the head as the ref at this depth is heights below stands a ref at the same height. */
  predicate Unhidden(refs: seq<BlockRef>, depth: nat) {
    depth < |refs|
    && var i := Below(refs[0].height, refs[depth].height); i < |refs| && refs[i].height == refs[depth].height
  }

  /** On linked refs that is the same ref. */
  lemma UnhiddenIsSame(refs: seq<BlockRef>, depth: nat)
    requires Linked(refs) && Unhidden(refs, depth)
    ensures refs[Below(refs[0].height, refs[depth].height)] == refs[depth]
  {
    LinkedHeights(refs, 0, depth);
    LinkedHeights(refs, refs[0].height - refs[depth].height, depth);
  }

  /**
   * The header at a depth is looked up by its height, so it is found exactly when no duplicate in
   * between hides it. Otherwise there is an error; the nil header is never met. The body is that of
   * the ref at the depth, and so of the header exactly when the ref found by height is that same ref.
   */
  lemma DepthExact(s: ChainData, depth: nat)
    requires ChainInv(s) && depth < TWO_63
    ensures var r := BlockAtDepth(s, depth);
            && (r.DepthBlock? <==> Unhidden(s.refs, depth))
            && (if r.DepthBlock? then
                  var ref := s.refs[Below(s.refs[0].height, s.refs[depth].height)];
                  && RefOf(r.header) == ref
                  && s.refs[depth].hash in s.bodies && r.body == s.bodies[s.refs[depth].hash]
                  && (HashOf(r.header) == s.refs[depth].hash <==> ref == s.refs[depth])
                else r == DepthError)
            && (r.DepthBlock? && Linked(s.refs) ==> RefOf(r.header) == s.refs[depth])
  {
    if depth < |s.refs| {
      var i := Below(s.refs[0].height, s.refs[depth].height);
      HeaderQueries.LookupExact(s.refs, s.headers, s.refs[depth].height);
      assert GoodRef(s.headers, s.refs[i]) && GoodRef(s.headers, s.refs[depth]);
      assert s.refs[depth].hash in s.metadata;
      if Linked(s.refs) && Unhidden(s.refs, depth) {
        UnhiddenIsSame(s.refs, depth);
      }
    }
  }

  /** After two direct extensions as coded, the lower of the two new blocks is not found at its depth. */
  lemma TwoExtensionsHideDepth(s: ChainData, a: BlockRef, b: BlockRef)
    requires ChainInv(s) && |s.refs| >= 4 && s.refs[..4] == [b, b, a, a] && Child(b, a)
    ensures BlockAtDepth(s, 2) == DepthError && BlockAtDepth(s, 3) == DepthError
  {
    assert s.refs[..4][0] == s.refs[0] && s.refs[..4][1] == s.refs[1] && s.refs[..4][2] == s.refs[2] && s.refs[..4][3] == s.refs[3];
    DepthExact(s, 2);
    DepthExact(s, 3);
  }

  /**
   * After any run, the scan for new heads of the next event meets no missing metadata, header or
   * body, and stops short of the n new refs only at a block that was sent before. The block to
   * confirm is found exactly when no duplicate hides it; no nil header is met.
   */
  lemma SendLoopIsServed(cfg: Config, events: seq<Event>, e: Event)
    requires Sane(cfg) && cfg.confirmations < TWO_63 && MovesHead(e)
    ensures var (s, n) := Handle(cfg, Run(cfg, events).chain, e);
            var (heads, err) := NewHeads(s, 0, n);
            var deep := BlockAtDepth(s, cfg.confirmations);
            && err == NoError && |heads| <= n <= |s.refs|
            && (|heads| < n ==> s.refs[|heads|].hash in s.metadata && s.metadata[s.refs[|heads|].hash].sentToBDN)
            && (deep.DepthBlock? <==> Unhidden(s.refs, cfg.confirmations)) && !deep.NilHeader?
  {
    RunKeepsChainInv(cfg, events);
    HandleKeepsChainInv(cfg, Run(cfg, events).chain, e);
    var (s, n) := Handle(cfg, Run(cfg, events).chain, e);
    HeadsServed(s, n);
    DepthExact(s, cfg.confirmations);
  }

  lemma ChainInvIsCore(s: ChainData)
    requires ChainInv(s)
    ensures Core(s)
  {
  }

  // Confirm messages

  /** A block once confirmed to the gateway is flagged, or is off the refs and too deep to come back. */
  ghost predicate Told(cfg: Config, s: ChainData, hash: Hash) {
    && hash.HashOf? && s.refs != []
    && ((hash in s.metadata && s.metadata[hash].confirmedMsgSent)
        || (hash.header.number + cfg.maxSize <= s.refs[0].height && !OnChain(hash, s.refs)))
  }

  ghost predicate TellInv(cfg: Config, w: World) {
    ChainInv(w.chain) && NoDuplicates(w.confirmed) && forall h :: h in w.confirmed ==> Told(cfg, w.chain, h)
  }

  lemma RisesKeepsTold(cfg: Config, s: ChainData, s': ChainData, n: nat, hash: Hash)
    requires Sane(cfg) && Told(cfg, s, hash) && KeepsFlags(s.metadata, s'.metadata) && Rises(cfg, s.refs, s'.refs, n)
    ensures Told(cfg, s', hash)
  {
  }

  lemma {:induction false} DeliverKeepsTellFlags(m: map<Hash, Metadata>, heads: seq<Hash>, accepted: set<Hash>)
    ensures KeepsFlags(m, Deliver(m, heads, accepted).0)
  {
    if heads != [] {
      var older, oldest := heads[..|heads| - 1], heads[|heads| - 1];
      DeliverKeepsTellFlags(if oldest in accepted then MarkSent(m, oldest) else m, older, accepted);
    }
  }

  lemma SendHeadsKeepsTold(cfg: Config, w: World, count: nat, accepted: set<Hash>, hash: Hash)
    requires Told(cfg, w.chain, hash)
    ensures Told(cfg, SendHeads(w, count, accepted).chain, hash)
  {
    DeliverKeepsTellFlags(w.chain.metadata, HashesOf(NewHeads(w.chain, 0, count).0), accepted);
  }

  lemma FlagsKeepTold(cfg: Config, s: ChainData, s': ChainData, hash: Hash)
    requires Told(cfg, s, hash) && SameChain(s, s') && KeepsFlags(s.metadata, s'.metadata)
    ensures Told(cfg, s', hash)
  {
  }

  /** The block announced is one of the refs, flagged from then on and not before. */
  lemma AnnouncedIsFlagged(w: World, depth: nat, ok: bool) returns (hash: Hash)
    requires ChainInv(w.chain) && AnnounceDeep(w, depth, ok) != w
    ensures var w' := AnnounceDeep(w, depth, ok);
            && w'.confirmed == w.confirmed + [hash] && w'.chain == w.chain.(metadata := w'.chain.metadata)
            && hash.HashOf? && OnChain(hash, w.chain.refs) && hash in w.chain.metadata && !w.chain.metadata[hash].confirmedMsgSent
            && w'.chain.metadata == w.chain.metadata[hash := w.chain.metadata[hash].(confirmedMsgSent := true)]
  {
    hash := HashOf(BlockAtDepth(w.chain, depth).header);
  }

  lemma UnflaggedRefIsUntold(cfg: Config, w: World, hash: Hash)
    requires TellInv(cfg, w) && OnChain(hash, w.chain.refs)
    requires hash in w.chain.metadata && !w.chain.metadata[hash].confirmedMsgSent
    ensures hash !in w.confirmed
  {
  }

  lemma AnnounceDeepTellsOnce(cfg: Config, w: World, depth: nat, ok: bool)
    requires TellInv(cfg, w)
    ensures TellInv(cfg, AnnounceDeep(w, depth, ok))
  {
    var w' := AnnounceDeep(w, depth, ok);
    if w' != w {
      var hash := AnnouncedIsFlagged(w, depth, ok);
      UnflaggedRefIsUntold(cfg, w, hash);
      NoDuplicatesJoin(w.confirmed, [hash]);
      FlagsKeepConsistent(w.chain, w'.chain);
      forall h | h in w'.confirmed ensures Told(cfg, w'.chain, h) {
        if h in w.confirmed {
          FlagsKeepTold(cfg, w.chain, w'.chain, h);
        }
      }
    }
  }

  /** What is pruned is no longer among the refs. */
  lemma PrunedIsOffRefs(s: ChainData, maxSize: nat, hash: Hash)
    requires Filed(s.headers) && GoodRefs(s.headers, s.refs) && Shallow(s.refs) && maxSize < TWO_63
    requires s.refs != [] && |s.headers| >= maxSize && Pruned(s, maxSize, hash)
    ensures !OnChain(hash, Clean(s, maxSize).refs)
  {
    var refs := Clean(s, maxSize).refs;
    forall k | 0 <= k < |refs| ensures refs[k].hash != hash {
      CleanKeepsRefs(s, maxSize, k);
      CleanKeepsStored(s, maxSize, refs[k].hash.header);
    }
  }

  lemma CleanOnlyTruncates(s: ChainData, maxSize: nat, hash: Hash)
    requires OnChain(hash, Clean(s, maxSize).refs)
    ensures OnChain(hash, s.refs)
  {
  }

  lemma CleanKeepsTold(cfg: Config, s: ChainData, hash: Hash)
    requires Sane(cfg) && Consistent(s) && Shallow(s.refs) && Told(cfg, s, hash)
    ensures Told(cfg, Clean(s, cfg.maxSize), hash)
  {
    if |s.headers| >= cfg.maxSize {
      if Pruned(s, cfg.maxSize, hash) {
        DoomedIsDeep(s.refs[0].height, cfg.maxSize, hash.header.number);
        PrunedIsOffRefs(s, cfg.maxSize, hash);
      } else if OnChain(hash, Clean(s, cfg.maxSize).refs) {
        CleanOnlyTruncates(s, cfg.maxSize, hash);
      }
    }
  }

  lemma StepTellsOnce(cfg: Config, w: World, e: Event)
    requires Sane(cfg) && TellInv(cfg, w) && !WrapsHead(w.chain, e)
    ensures TellInv(cfg, Step(cfg, w, e))
  {
    StepKeepsChainInv(cfg, w, e);
    ChainInvIsCore(w.chain);
    if MovesHead(e) {
      var (chain, n) := Handle(cfg, w.chain, e);
      HandleRises(cfg, w.chain, e);
      HandleKeepsChainInv(cfg, w.chain, e);
      var w1 := SendHeads(w.(chain := chain), n, e.accepted);
      forall h | h in w1.confirmed ensures Told(cfg, w1.chain, h) {
        RisesKeepsTold(cfg, w.chain, chain, n, h);
        SendHeadsKeepsTold(cfg, w.(chain := chain), n, e.accepted, h);
      }
      SendHeadsKeepsChain(w.(chain := chain), n, e.accepted);
      FlagsKeepConsistent(chain, SendHeads(w.(chain := chain), n, e.accepted).chain);
      AnnounceDeepTellsOnce(cfg, w1, cfg.confirmations, e.confirmOk);
    } else if e.Tick? {
      forall h | h in w.confirmed ensures Told(cfg, Clean(w.chain, cfg.maxSize), h) {
        CleanKeepsTold(cfg, w.chain, h);
      }
    } else {
      AddBlockRises(cfg, w.chain, e.block, e.difficulty, BDN);
      forall h | h in w.confirmed ensures Told(cfg, AddBlock(cfg, w.chain, e.block, e.difficulty, BDN).0, h) {
        RisesKeepsTold(cfg, w.chain, AddBlock(cfg, w.chain, e.block, e.difficulty, BDN).0, 0, h);
      }
    }
  }

  lemma {:induction false} RunTellsOnce(cfg: Config, events: seq<Event>)
    requires Sane(cfg) && NoneWraps(cfg, events, 0)
    ensures TellInv(cfg, Run(cfg, events))
  {
    if events != [] {
      NoneWrapsBefore(cfg, events, 0);
      RunTellsOnce(cfg, events[..|events| - 1]);
      StepTellsOnce(cfg, Run(cfg, events[..|events| - 1]), events[|events| - 1]);
    }
  }

  /** Over every run in which no event wraps the head, no block is confirmed to the gateway twice. */
  lemma NeverConfirmedTwice(cfg: Config, events: seq<Event>)
    requires Sane(cfg) && NoneWraps(cfg, events, 0)
    ensures NoDuplicates(Run(cfg, events).confirmed)
  {
    RunTellsOnce(cfg, events);
  }
}
