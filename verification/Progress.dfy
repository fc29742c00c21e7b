/** What each event must achieve, told by the state it meets and the state it leaves. */
module Progress {
  import opened GoInts
  import opened EthTypes
  import opened ForkChoice
  import opened BranchWalk
  import opened ChainStore
  import opened BdnRelay
  import opened ChainRuns

  // Storing, confirming, validating

  /** A block not known yet is stored whole. */
  lemma NewBlockIsStored(s: ChainData, block: Block, difficulty: Option<nat>, source: BlockSource)
    requires HashOf(block.header) !in s.metadata
    ensures var s', hash := Receive(s, block, difficulty, source), HashOf(block.header);
            && s'.refs == s.refs && s'.bodies == s.bodies[hash := block.body]
            && s'.difficulties == (if difficulty.None? then s.difficulties else s.difficulties[hash := difficulty.value])
            && s'.metadata == s.metadata[hash := Metadata(block.header.number, false, source == Blockchain, false)]
            && forall x :: Stored(s'.headers, x) <==> Stored(s.headers, x) || x == block.header
  {
    forall x { StoreHeaderAdds(s.headers, block.header, x); }
  }

  /** One that is known only has its confirmation raised. */
  lemma KnownBlockIsKept(s: ChainData, block: Block, difficulty: Option<nat>, source: BlockSource)
    requires Consistent(s) && HashOf(block.header) in s.metadata
    ensures var m := s.metadata[HashOf(block.header)];
            Receive(s, block, difficulty, source)
            == s.(metadata := s.metadata[HashOf(block.header) := m.(confirmed := m.confirmed || source == Blockchain)])
  {
  }

  /** Confirming a known hash raises its flag and offers its header; an unknown one does nothing. */
  lemma ConfirmRaises(s: ChainData, hash: Hash)
    requires Consistent(s)
    ensures var (s', header) := Confirm(s, hash);
            if hash in s.metadata then
              && hash.HashOf? && header == Some(hash.header)
              && s' == s.(metadata := s.metadata[hash := s.metadata[hash].(confirmed := true)])
            else s' == s && header == None
  {
  }

  /** A uint64 read as an int64. */
  function Signed(n: U64): int {
    if n < TWO_63 then n else n - TWO_64
  }

  /** The highest number, in 64 bits, that is not too far ahead of a head. */
  function Limit(head: U64): U64 {
    if head < TWO_64 - 100 then head + 100 else head + 100 - TWO_64
  }

  lemma SignedIs(n: U64)
    ensures ToInt64(n) == Signed(n)
  {
  }

  lemma LimitIs(head: U64)
    ensures ToU64(head + MAX_FUTURE_BLOCK_NUMBER) == Limit(head)
  {
  }

  /** A block is refused if it was sent and confirmed, or else if its number, as an int64, is more than 100 above a head above 0. */
  lemma ValidateRefuses(s: ChainData, header: Header)
    requires Consistent(s)
    ensures var hash, head := HashOf(header), if s.refs == [] then 0 else s.refs[0].height;
            Validate(s, hash, header.number)
            == if hash in s.metadata && s.metadata[hash].sentToBDN && s.metadata[hash].confirmed then AlreadySeen
               else if head != 0 && Signed(header.number) > Signed(Limit(head)) then TooFarAhead else Acceptable
  {
    SignedIs(header.number);
    if s.refs != [] {
      LimitIs(s.refs[0].height);
      SignedIs(Limit(s.refs[0].height));
    }
  }

  // Changing the refs

  /** The refs an event leads to: told by the stored ancestors of the block it offers. */
  lemma HandleArrives(cfg: Config, s: ChainData, e: Event, branch: seq<BlockRef>)
    requires Sane(cfg) && ChainInv(s) && MovesHead(e) && s.refs != [] && Ready(s, e).1.Some?
    requires var header := Ready(s, e).1.value;
             header.number > s.refs[0].height && Arrives(cfg, s.refs, Ready(s, e).0.headers, header, branch)
    ensures var (s1, header) := Ready(s, e);
            Handle(cfg, s, e) == (s1.(refs := branch + Kept(cfg, s.refs, header.value, |branch|)), |branch|)
  {
    var (s1, header) := Ready(s, e);
    ReadyIsStored(s, e);
    UpdateArrives(cfg, s1.refs, s1.headers, header.value, branch);
  }

  lemma HandleBreaksOff(cfg: Config, s: ChainData, e: Event, branch: seq<BlockRef>)
    requires Sane(cfg) && ChainInv(s) && MovesHead(e) && s.refs != [] && Ready(s, e).1.Some?
    requires var header := Ready(s, e).1.value;
             header.number > s.refs[0].height && BreaksOff(cfg, s.refs, Ready(s, e).0.headers, header, branch)
    ensures var (s1, header) := Ready(s, e); Handle(cfg, s, e) == (s1.(refs := Extended(s.refs, header.value)), 0)
  {
    var (s1, header) := Ready(s, e);
    ReadyIsStored(s, e);
    UpdateBreaksOff(cfg, s1.refs, s1.headers, header.value, branch);
  }

  /** The refs as the offered block and its stored ancestors say, given a walk from it that arrives or breaks off. */
  ghost predicate Follows(cfg: Config, s: ChainData, e: Event, branch: seq<BlockRef>, refs: seq<BlockRef>)
    requires MovesHead(e)
  {
    var (s1, offered) := Ready(s, e);
    match offered
    case None => refs == s.refs
    case Some(header) =>
      if s.refs == [] then refs == [RefOf(header)]
      else if header.number <= s.refs[0].height then
        refs == if WrapsOnto(s.refs, header.number, header.parentHash) then [RefOf(header)] + s.refs else s.refs
      else
        && (Arrives(cfg, s.refs, s1.headers, header, branch) ==> refs == branch + Kept(cfg, s.refs, header, |branch|))
        && (BreaksOff(cfg, s.refs, s1.headers, header, branch) ==> refs == s.refs)
  }

  lemma HandleFollows(cfg: Config, s: ChainData, e: Event, branch: seq<BlockRef>)
    requires Sane(cfg) && ChainInv(s) && MovesHead(e)
    ensures Follows(cfg, s, e, branch, Handle(cfg, s, e).0.refs)
  {
    var (s1, offered) := Ready(s, e);
    ReadyIsStored(s, e);
    match offered
    case None =>
    case Some(header) =>
      if s.refs != [] && header.number > s.refs[0].height {
        if Arrives(cfg, s.refs, s1.headers, header, branch) {
          HandleArrives(cfg, s, e, branch);
        } else if BreaksOff(cfg, s.refs, s1.headers, header, branch) {
          HandleBreaksOff(cfg, s, e, branch);
          NoExtensionBreaksOff(cfg, s.refs, s1.headers, header, branch);
        }
      } else {
        UpdateElsewhere(cfg, s1.refs, s1.headers, header);
      }
  }

  lemma StoredIsWalked(cfg: Config, refs: seq<BlockRef>, headers: HeaderStore, header: Header, branch: seq<BlockRef>)
    requires refs != [] && header.number > refs[0].height && Stored(headers, header)
    requires BreaksOff(cfg, refs, headers, header, branch)
    ensures branch != []
  {
    var top := RefOf(header);
    assert FindHeader(headers, top.height, top.hash).Some?;
  }

  /** Of a stored block the walk that breaks off is no direct extension. */
  lemma NoExtensionBreaksOff(cfg: Config, refs: seq<BlockRef>, headers: HeaderStore, header: Header, branch: seq<BlockRef>)
    requires Sane(cfg) && refs != [] && header.number > refs[0].height && Stored(headers, header)
    requires BreaksOff(cfg, refs, headers, header, branch)
    ensures Extended(refs, header) == refs
  {
    StoredIsWalked(cfg, refs, headers, header, branch);
    if header.number == refs[0].height + 1 && header.parentHash == refs[0].hash {
      ExtensionWalk(cfg, refs, headers, header, branch);
    }
  }

  /**
   * After any run, an event that offers a block above the head changes the refs exactly as the stored
   * ancestors of that block say: all of them in front of what is kept, or, where one is missing, none.
   */
  lemma RunFollows(cfg: Config, events: seq<Event>, e: Event, branch: seq<BlockRef>)
    requires Sane(cfg) && MovesHead(e)
    ensures Follows(cfg, Run(cfg, events).chain, e, branch, Step(cfg, Run(cfg, events), e).chain.refs)
  {
    var w := Run(cfg, events);
    var (chain, n) := Handle(cfg, w.chain, e);
    RunKeepsChainInv(cfg, events);
    HandleFollows(cfg, w.chain, e, branch);
    SendConfirmedKeepsChain(cfg, w.(chain := chain), n, e.accepted, e.confirmOk);
  }

  // Handing over new heads

  /** Each head handed over carries the body and the difficulty stored for its hash. */
  lemma {:induction false} HeadsCarryBodies(s: ChainData, i: nat, count: nat)
    ensures forall k :: 0 <= k < |NewHeads(s, i, count).0| ==>
              var head := NewHeads(s, i, count).0[k];
              && HashOf(head.header) in s.bodies && head.body == s.bodies[HashOf(head.header)]
              && head.difficulty == if HashOf(head.header) in s.difficulties then Some(s.difficulties[HashOf(head.header)]) else None
    decreases count - i
  {
    if i < count && i < |s.refs| {
      HeadsCarryBodies(s, i + 1, count);
      var heads, rest := NewHeads(s, i, count).0, NewHeads(s, i + 1, count).0;
      forall k | 0 < k < |heads| ensures heads[k] == rest[k - 1] {
      }
    }
  }

  predicate WasSent(s: ChainData, hash: Hash) {
    hash in s.metadata && s.metadata[hash].sentToBDN
  }

  /** Hash of one of the first blocks of a branch, down to the first that was sent before. */
  ghost predicate AmongNew(s: ChainData, branch: seq<BlockRef>, hash: Hash) {
    exists k :: 0 <= k < |branch| && branch[k].hash == hash && forall j :: 0 <= j <= k ==> !WasSent(s, branch[j].hash)
  }

  /** The first m blocks of a branch, where the next one was sent before, if there is one. */
  lemma FirstAreNew(s: ChainData, branch: seq<BlockRef>, m: nat, heads: seq<Hash>)
    requires m <= |branch| && (m < |branch| ==> WasSent(s, branch[m].hash))
    requires |heads| == m && forall k :: 0 <= k < m ==> heads[k] == branch[k].hash && !WasSent(s, branch[k].hash)
    ensures forall h :: h in heads <==> AmongNew(s, branch, h)
  {
    forall h | AmongNew(s, branch, h) ensures h in heads {
      var k :| 0 <= k < |branch| && branch[k].hash == h && forall j :: 0 <= j <= k ==> !WasSent(s, branch[j].hash);
      assert heads[k] == h;
    }
    forall k | 0 <= k < m ensures AmongNew(s, branch, heads[k]) {
      assert branch[k].hash == heads[k];
    }
  }

  /** What the scan of the first n refs takes: none that was sent, up to one that was. */
  lemma ScanIs(s: ChainData, n: nat) returns (heads: seq<Hash>)
    requires Consistent(s) && n <= |s.refs|
    ensures heads == HashesOf(NewHeads(s, 0, n).0) && |heads| <= n && (|heads| < n ==> WasSent(s, s.refs[|heads|].hash))
    ensures forall k :: 0 <= k < |heads| ==> heads[k] == s.refs[k].hash && heads[k] in s.metadata && !WasSent(s, heads[k])
  {
    var found := NewHeads(s, 0, n).0;
    heads := HashesOf(found);
    HeadsServed(s, n);
    NewHeadsAreUnsentRefs(s, 0, n);
    forall k | 0 <= k < |heads| ensures heads[k] == s.refs[k].hash && heads[k] in s.metadata && !WasSent(s, heads[k]) {
      assert heads[k] == HashOf(found[k].header) == s.refs[0 + k].hash;
    }
  }

  /** The scan takes exactly those. */
  lemma ScanTakesNew(s: ChainData, branch: seq<BlockRef>) returns (heads: seq<Hash>)
    requires Consistent(s) && branch <= s.refs && forall k :: 0 <= k < |branch| - 1 ==> IsParent(branch[k].hash, branch[k + 1].hash)
    ensures heads == HashesOf(NewHeads(s, 0, |branch|).0) && NoDuplicates(heads)
    ensures forall h :: h in heads <==> AmongNew(s, branch, h)
    ensures forall h :: h in heads ==> h in s.metadata
  {
    heads := ScanIs(s, |branch|);
    forall i, j | 0 <= i < j < |heads| ensures heads[i] != heads[j] {
      LineageFalls(branch, i, j);
    }
    FirstAreNew(s, branch, |heads|, heads);
  }

  /** Being ready changes no sent flag. */
  lemma ReadyKeepsSent(s: ChainData, e: Event, hash: Hash)
    requires MovesHead(e)
    ensures WasSent(Ready(s, e).0, hash) <==> WasSent(s, hash)
  {
  }

  lemma SendsThose(w: World, branch: seq<BlockRef>, accepted: set<Hash>)
    requires ChainInv(w.chain) && branch <= w.chain.refs
    requires forall k :: 0 <= k < |branch| - 1 ==> IsParent(branch[k].hash, branch[k + 1].hash)
    ensures var sent := SendHeads(w, |branch|, accepted).sent;
            w.sent <= sent && forall h :: h in sent[|w.sent|..] <==> h in accepted && AmongNew(w.chain, branch, h)
    ensures forall h :: WasSent(SendHeads(w, |branch|, accepted).chain, h)
                        <==> WasSent(w.chain, h) || (h in accepted && AmongNew(w.chain, branch, h))
  {
    var heads := ScanTakesNew(w.chain, branch);
    DeliverMarks(w.chain.metadata, heads, accepted);
    var newly := Deliver(w.chain.metadata, heads, accepted).1;
    assert (w.sent + newly)[|w.sent|..] == newly;
  }

  lemma ArrivedIsLinked(cfg: Config, refs: seq<BlockRef>, headers: HeaderStore, header: Header, branch: seq<BlockRef>)
    requires refs != [] && header.number > refs[0].height && Arrives(cfg, refs, headers, header, branch)
    ensures forall k :: 0 <= k < |branch| - 1 ==> IsParent(branch[k].hash, branch[k + 1].hash)
  {
  }

  /** The event puts this branch in front of the refs, or makes it the first of them. */
  ghost predicate PutsInFront(cfg: Config, s: ChainData, e: Event, branch: seq<BlockRef>) {
    MovesHead(e)
    && var (s1, offered) := Ready(s, e);
    offered.Some?
    && if s.refs == [] then branch == [RefOf(offered.value)]
       else offered.value.number > s.refs[0].height && Arrives(cfg, s.refs, s1.headers, offered.value, branch)
  }

  lemma HandlePutsInFront(cfg: Config, s: ChainData, e: Event, branch: seq<BlockRef>)
    requires Sane(cfg) && ChainInv(s) && PutsInFront(cfg, s, e, branch)
    ensures var (s', n) := Handle(cfg, s, e);
            && n == |branch| && branch <= s'.refs && s'.metadata == Ready(s, e).0.metadata
            && forall k :: 0 <= k < |branch| - 1 ==> IsParent(branch[k].hash, branch[k + 1].hash)
  {
    var (s1, offered) := Ready(s, e);
    ReadyIsStored(s, e);
    if s.refs == [] {
      UpdateElsewhere(cfg, s1.refs, s1.headers, offered.value);
    } else {
      HandleArrives(cfg, s, e, branch);
      ArrivedIsLinked(cfg, s.refs, s1.headers, offered.value, branch);
    }
  }

  lemma StepHandsOver(cfg: Config, w: World, e: Event, branch: seq<BlockRef>)
    requires Sane(cfg) && ChainInv(w.chain) && PutsInFront(cfg, w.chain, e, branch)
    ensures var w' := Step(cfg, w, e);
            w.sent <= w'.sent && forall h :: h in w'.sent[|w.sent|..] <==> h in e.accepted && AmongNew(w.chain, branch, h)
  {
    var s' := Handle(cfg, w.chain, e).0;
    HandlePutsInFront(cfg, w.chain, e, branch);
    HandleKeepsChainInv(cfg, w.chain, e);
    SendsThose(w.(chain := s'), branch, e.accepted);
    SameNew(w.chain, s', e, branch);
  }

  /**
   * After any run, an event that puts a branch in front of the refs hands to the BDN exactly those of
   * its blocks, down to the first that was sent before, whose send succeeds.
   */
  lemma RunHandsOver(cfg: Config, events: seq<Event>, e: Event, branch: seq<BlockRef>)
    requires Sane(cfg) && PutsInFront(cfg, Run(cfg, events).chain, e, branch)
    ensures var w, w' := Run(cfg, events), Step(cfg, Run(cfg, events), e);
            w.sent <= w'.sent && forall h :: h in w'.sent[|w.sent|..] <==> h in e.accepted && AmongNew(w.chain, branch, h)
  {
    RunKeepsChainInv(cfg, events);
    StepHandsOver(cfg, Run(cfg, events), e, branch);
  }

  lemma HandleCountsNone(cfg: Config, s: ChainData, e: Event)
    requires Sane(cfg) && ChainInv(s) && MovesHead(e) && forall branch :: !PutsInFront(cfg, s, e, branch)
    ensures Handle(cfg, s, e).1 == 0
  {
    var (s1, offered) := Ready(s, e);
    ReadyIsStored(s, e);
    match offered
    case None =>
    case Some(header) =>
      assert !PutsInFront(cfg, s, e, [RefOf(header)]);
      if header.number > s.refs[0].height {
        var branch := WalkExists(cfg, s1.refs, s1.headers, header);
        assert !PutsInFront(cfg, s, e, branch);
        HandleBreaksOff(cfg, s, e, branch);
      } else {
        UpdateElsewhere(cfg, s1.refs, s1.headers, header);
      }
  }

  /** An event that puts none in front hands over nothing. */
  lemma RunHandsNothing(cfg: Config, events: seq<Event>, e: Event)
    requires Sane(cfg) && forall branch :: !PutsInFront(cfg, Run(cfg, events).chain, e, branch)
    ensures Step(cfg, Run(cfg, events), e).sent == Run(cfg, events).sent
  {
    var w := Run(cfg, events);
    RunKeepsChainInv(cfg, events);
    if MovesHead(e) {
      HandleCountsNone(cfg, w.chain, e);
      assert NewHeads(Handle(cfg, w.chain, e).0, 0, 0) == ([], NoError);
    }
  }

  lemma SameNew(s: ChainData, s': ChainData, e: Event, branch: seq<BlockRef>)
    requires MovesHead(e) && s'.metadata == Ready(s, e).0.metadata
    ensures forall hash :: AmongNew(s', branch, hash) <==> AmongNew(s, branch, hash)
  {
    forall k | 0 <= k < |branch| ensures WasSent(s', branch[k].hash) <==> WasSent(s, branch[k].hash) {
      ReadyKeepsSent(s, e, branch[k].hash);
    }
  }

  // The confirm message

  /** The header that stands for a depth: of the ref as many places down as the ref there is heights below. */
  function DeepRef(refs: seq<BlockRef>, depth: nat): BlockRef
    requires Unhidden(refs, depth)
  {
    refs[Below(refs[0].height, refs[depth].height)]
  }

  /** A confirm message goes out exactly when its send succeeds, the block at the depth is found, and none went out for it. */
  lemma AnnouncesExactly(w: World, depth: nat, ok: bool)
    requires ChainInv(w.chain) && depth < TWO_63
    ensures var w', m := AnnounceDeep(w, depth, ok), w.chain.metadata;
            if ok && Unhidden(w.chain.refs, depth) && !m[DeepRef(w.chain.refs, depth).hash].confirmedMsgSent then
              var hash := DeepRef(w.chain.refs, depth).hash;
              && w'.confirmed == w.confirmed + [hash] && w'.sent == w.sent
              && w'.chain == w.chain.(metadata := m[hash := m[hash].(confirmedMsgSent := true)])
            else w' == w
  {
    DepthExact(w.chain, depth);
    forall k | 0 <= k < |w.chain.refs| ensures w.chain.refs[k].hash in w.chain.metadata {
      assert GoodRef(w.chain.headers, w.chain.refs[k]);
    }
  }

  predicate WasTold(s: ChainData, hash: Hash) {
    hash in s.metadata && s.metadata[hash].confirmedMsgSent
  }

  lemma HandleKeepsTold(cfg: Config, s: ChainData, e: Event, hash: Hash)
    requires MovesHead(e)
    ensures WasTold(Handle(cfg, s, e).0, hash) <==> WasTold(s, hash)
  {
  }

  lemma {:induction false} DeliverKeepsTold(m: map<Hash, Metadata>, heads: seq<Hash>, accepted: set<Hash>)
    ensures var m' := Deliver(m, heads, accepted).0;
            m'.Keys == m.Keys && forall h :: h in m ==> m'[h].confirmedMsgSent == m[h].confirmedMsgSent
  {
    if heads != [] {
      var older, oldest := heads[..|heads| - 1], heads[|heads| - 1];
      DeliverKeepsTold(if oldest in accepted then MarkSent(m, oldest) else m, older, accepted);
    }
  }

  /** The confirmed list after an event that leaves these refs. */
  ghost predicate Confirms(cfg: Config, w: World, e: Event, w': World)
    requires MovesHead(e)
  {
    var due := Unhidden(w'.chain.refs, cfg.confirmations) && !WasTold(w.chain, DeepRef(w'.chain.refs, cfg.confirmations).hash);
    w'.confirmed == if e.confirmOk && due then w.confirmed + [DeepRef(w'.chain.refs, cfg.confirmations).hash] else w.confirmed
  }

  lemma StepConfirms(cfg: Config, w: World, e: Event)
    requires Sane(cfg) && cfg.confirmations < TWO_63 && MovesHead(e) && ChainInv(w.chain)
    ensures Confirms(cfg, w, e, Step(cfg, w, e))
  {
    var (s', n) := Handle(cfg, w.chain, e);
    HandleKeepsChainInv(cfg, w.chain, e);
    var w1 := SendHeads(w.(chain := s'), n, e.accepted);
    SendHeadsKeepsChain(w.(chain := s'), n, e.accepted);
    FlagsKeepConsistent(s', w1.chain);
    DeliverKeepsTold(s'.metadata, HashesOf(NewHeads(s', 0, n).0), e.accepted);
    AnnouncesExactly(w1, cfg.confirmations, e.confirmOk);
    if Unhidden(s'.refs, cfg.confirmations) {
      HandleKeepsTold(cfg, w.chain, e, DeepRef(s'.refs, cfg.confirmations).hash);
    }
  }

  /**
   * After any run, an event confirms to the gateway the block cfg.confirmations below the head it leaves,
   * exactly when that message gets through, the block is found, and it was not confirmed before.
   */
  lemma RunConfirms(cfg: Config, events: seq<Event>, e: Event)
    requires Sane(cfg) && cfg.confirmations < TWO_63 && MovesHead(e)
    ensures Confirms(cfg, Run(cfg, events), e, Step(cfg, Run(cfg, events), e))
  {
    RunKeepsChainInv(cfg, events);
    StepConfirms(cfg, Run(cfg, events), e);
  }

  /** A cleaning or a BDN block hands over and confirms nothing; a BDN block is stored if it is not, and leaves the refs alone. */
  lemma OtherEventsAreSilent(cfg: Config, w: World, e: Event)
    requires !MovesHead(e)
    ensures Step(cfg, w, e).sent == w.sent && Step(cfg, w, e).confirmed == w.confirmed
    ensures e.BdnBlock? ==>
              Step(cfg, w, e).chain == if HasBlock(w.chain, HashOf(e.block.header)) then w.chain else Receive(w.chain, e.block, e.difficulty, BDN)
    ensures e.BdnBlock? ==> Step(cfg, w, e).chain.refs == w.chain.refs
    ensures e.Tick? ==> Step(cfg, w, e).chain == Clean(w.chain, cfg.maxSize)
  {
  }

  // Cleaning

  /** Pruning spares the maxSize highest heights and drops the others, as far as int64 arithmetic goes. */
  lemma DoomedIff(head: U64, maxSize: nat, height: U64)
    requires 0 < maxSize < TWO_63
    ensures Doomed(head, maxSize, height)
            <==> height + maxSize <= head && height < TWO_63 && (head < TWO_63 || head - maxSize < TWO_63 - 1)
  {
  }

  /** A store that is full keeps the first maxSize refs; any other is left as it is. */
  lemma CleanCutsRefs(s: ChainData, maxSize: nat)
    ensures var full := s.refs != [] && |s.headers| >= maxSize;
            && Clean(s, maxSize).refs == (if full && |s.refs| > maxSize then s.refs[..maxSize] else s.refs)
            && (!full ==> Clean(s, maxSize) == s)
  {
  }

  /** What is stored of a hash. */
  predicate SameStored(s: ChainData, s': ChainData, hash: Hash) {
    && (hash in s.bodies <==> hash in s'.bodies) && (hash in s.bodies ==> s.bodies[hash] == s'.bodies[hash])
    && (hash in s.difficulties <==> hash in s'.difficulties) && (hash in s.difficulties ==> s.difficulties[hash] == s'.difficulties[hash])
  }

  /** Everything stored of a hash, or nothing. */
  predicate KeepsOrDrops(s: ChainData, s': ChainData, hash: Hash, keeps: bool) {
    if keeps then
      && SameStored(s, s', hash)
      && (hash in s.metadata <==> hash in s'.metadata) && (hash in s.metadata ==> s.metadata[hash] == s'.metadata[hash])
    else hash !in s'.metadata && hash !in s'.bodies && hash !in s'.difficulties
  }

  /** A full store drops the blocks so deep that its arithmetic dooms them, and keeps all there is of the others. */
  lemma CleanKeepsTheRest(s: ChainData, maxSize: nat, hash: Hash)
    requires Consistent(s) && s.refs != [] && |s.headers| >= maxSize && hash in s.metadata
    ensures KeepsOrDrops(s, Clean(s, maxSize), hash, !Doomed(s.refs[0].height, maxSize, hash.header.number))
  {
    CleanKeepsStored(s, maxSize, hash.header);
  }

  // Blocks handed on are the blocks received

  /** The event that brought a block which was not stored then and has been ever since. */
  ghost predicate EnteredBy(cfg: Config, events: seq<Event>, i: nat, hash: Hash) {
    && i < |events| && (events[i].PeerBlock? || events[i].BdnBlock?) && HashOf(events[i].block.header) == hash
    && hash !in ChainAt(cfg, events, i).metadata
    && forall j :: i < j <= |events| ==> hash in ChainAt(cfg, events, j).metadata
  }

  /** The body and the difficulty are those of the event. */
  predicate Carried(s: ChainData, e: Event, hash: Hash) {
    (e.PeerBlock? || e.BdnBlock?)
    && hash in s.bodies && s.bodies[hash] == e.block.body
    && (if hash in s.difficulties then e.difficulty == Some(s.difficulties[hash]) else e.difficulty == None)
  }

  lemma ReceiveCarries(s: ChainData, block: Block, difficulty: Option<nat>, source: BlockSource, hash: Hash)
    requires Consistent(s) && hash in Receive(s, block, difficulty, source).metadata
    ensures var s' := Receive(s, block, difficulty, source);
            if hash in s.metadata then SameStored(s, s', hash)
            else hash == HashOf(block.header) && s'.bodies[hash] == block.body
                 && difficulty == if hash in s'.difficulties then Some(s'.difficulties[hash]) else None
  {
  }

  lemma HandleCarries(cfg: Config, s: ChainData, e: Event, hash: Hash)
    requires Consistent(s) && MovesHead(e) && hash in Handle(cfg, s, e).0.metadata
    ensures var s' := Handle(cfg, s, e).0;
            if hash in s.metadata then SameStored(s, s', hash)
            else e.PeerBlock? && hash == HashOf(e.block.header) && Carried(s', e, hash)
  {
    if e.PeerBlock? {
      ReceiveCarries(s, e.block, e.difficulty, Blockchain, hash);
    }
  }

  lemma CleanCarries(s: ChainData, maxSize: nat, hash: Hash)
    requires Consistent(s) && hash in Clean(s, maxSize).metadata
    ensures hash in s.metadata && SameStored(s, Clean(s, maxSize), hash)
  {
    if s.refs != [] && |s.headers| >= maxSize {
      CleanKeepsTheRest(s, maxSize, hash);
    }
  }

  lemma StepCarries(cfg: Config, w: World, e: Event, hash: Hash)
    requires Sane(cfg) && Consistent(w.chain) && hash in Step(cfg, w, e).chain.metadata
    ensures var s' := Step(cfg, w, e).chain;
            if hash in w.chain.metadata then SameStored(w.chain, s', hash)
            else (e.PeerBlock? || e.BdnBlock?) && hash == HashOf(e.block.header) && Carried(s', e, hash)
  {
    if MovesHead(e) {
      var (chain, n) := Handle(cfg, w.chain, e);
      SendConfirmedKeepsChain(cfg, w.(chain := chain), n, e.accepted, e.confirmOk);
      HandleCarries(cfg, w.chain, e, hash);
    } else if e.Tick? {
      CleanCarries(w.chain, cfg.maxSize, hash);
    } else if !HasBlock(w.chain, HashOf(e.block.header)) {
      ReceiveCarries(w.chain, e.block, e.difficulty, BDN, hash);
    }
  }

  lemma ChainBefore(cfg: Config, events: seq<Event>, n: nat, j: nat)
    requires j <= n <= |events|
    ensures ChainAt(cfg, events[..n], j) == ChainAt(cfg, events, j)
  {
    assert events[..n][..j] == events[..j];
  }

  lemma EnteredStays(cfg: Config, events: seq<Event>, i: nat, hash: Hash)
    requires events != [] && EnteredBy(cfg, events[..|events| - 1], i, hash) && hash in Run(cfg, events).chain.metadata
    ensures EnteredBy(cfg, events, i, hash)
  {
    var n := |events| - 1;
    ChainBefore(cfg, events, n, i);
    forall j | i < j <= |events| ensures hash in ChainAt(cfg, events, j).metadata {
      if j <= n {
        ChainBefore(cfg, events, n, j);
      } else {
        assert events[..j] == events;
      }
    }
  }

  lemma EnteredLast(cfg: Config, events: seq<Event>, hash: Hash)
    requires events != [] && hash !in Run(cfg, events[..|events| - 1]).chain.metadata && hash in Run(cfg, events).chain.metadata
    requires var e := events[|events| - 1]; (e.PeerBlock? || e.BdnBlock?) && HashOf(e.block.header) == hash
    ensures EnteredBy(cfg, events, |events| - 1, hash)
  {
    assert events[..|events|] == events;
  }

  /** After any run, what is stored of a block is what came with it in the event that brought it in. */
  lemma {:induction false} RunCarries(cfg: Config, events: seq<Event>, hash: Hash) returns (i: nat)
    requires Sane(cfg) && hash in Run(cfg, events).chain.metadata
    ensures EnteredBy(cfg, events, i, hash) && Carried(Run(cfg, events).chain, events[i], hash)
  {
    var n := |events| - 1;
    var before, e := events[..n], events[n];
    RunKeepsChainInv(cfg, before);
    StepCarries(cfg, Run(cfg, before), e, hash);
    if hash in Run(cfg, before).chain.metadata {
      i := RunCarries(cfg, before, hash);
      EnteredStays(cfg, events, i, hash);
    } else {
      i := n;
      EnteredLast(cfg, events, hash);
    }
  }

  /** So what the next event hands to the BDN for a block is the body and the difficulty that came with it. */
  lemma RunHandsOverReceived(cfg: Config, events: seq<Event>, e: Event, k: nat) returns (i: nat)
    requires Sane(cfg) && MovesHead(e)
    requires var (s, n) := Handle(cfg, Run(cfg, events).chain, e); k < |NewHeads(s, 0, n).0|
    ensures var (s, n) := Handle(cfg, Run(cfg, events).chain, e);
            var head, all := NewHeads(s, 0, n).0[k], events + [e];
            && EnteredBy(cfg, all, i, HashOf(head.header)) && (all[i].PeerBlock? || all[i].BdnBlock?)
            && all[i].block == Block(head.header, head.body) && all[i].difficulty == head.difficulty
  {
    var w := Run(cfg, events);
    var (s, n) := Handle(cfg, w.chain, e);
    var hash := HashOf(NewHeads(s, 0, n).0[k].header);
    HeadsCarryBodies(s, 0, n);
    NewHeadsAreUnsentRefs(s, 0, n);
    SendConfirmedKeepsChain(cfg, w.(chain := s), n, e.accepted, e.confirmOk);
    assert (events + [e])[..|events|] == events;
    i := RunCarries(cfg, events + [e], hash);
  }

  // Refusal

  /** Sent and confirmed: refused by validation. */
  predicate Refused(s: ChainData, hash: Hash) {
    WasSent(s, hash) && s.metadata[hash].confirmed
  }

  lemma {:induction false} DeliverKeepsConfirmed(m: map<Hash, Metadata>, heads: seq<Hash>, accepted: set<Hash>)
    ensures var m' := Deliver(m, heads, accepted).0;
            m'.Keys == m.Keys && forall h :: h in m ==> m'[h].confirmed == m[h].confirmed && (m[h].sentToBDN ==> m'[h].sentToBDN)
  {
    if heads != [] {
      var older, oldest := heads[..|heads| - 1], heads[|heads| - 1];
      DeliverKeepsConfirmed(if oldest in accepted then MarkSent(m, oldest) else m, older, accepted);
    }
  }

  lemma HandleKeepsRefused(cfg: Config, s: ChainData, e: Event, hash: Hash)
    requires MovesHead(e) && Refused(s, hash)
    ensures Refused(Handle(cfg, s, e).0, hash)
  {
  }

  lemma SendLoopKeepsRefused(cfg: Config, w: World, n: nat, accepted: set<Hash>, ok: bool, hash: Hash)
    requires Refused(w.chain, hash)
    ensures Refused(SendConfirmed(cfg, w, n, accepted, ok).chain, hash)
  {
    DeliverKeepsConfirmed(w.chain.metadata, HashesOf(NewHeads(w.chain, 0, n).0), accepted);
    var w1 := SendHeads(w, n, accepted);
    assert Refused(w1.chain, hash);
  }

  lemma CleanKeepsRefused(s: ChainData, maxSize: nat, hash: Hash)
    requires Consistent(s) && maxSize < TWO_63 && Refused(s, hash)
    ensures if hash in Clean(s, maxSize).metadata then Refused(Clean(s, maxSize), hash)
            else hash.HashOf? && s.refs != [] && hash.header.number + maxSize <= s.refs[0].height
  {
    if s.refs != [] && |s.headers| >= maxSize {
      CleanKeepsTheRest(s, maxSize, hash);
      if hash !in Clean(s, maxSize).metadata {
        DoomedIsDeep(s.refs[0].height, maxSize, hash.header.number);
      }
    }
  }

  /** The event is a cleaning that prunes the hash, at least maxSize below the head. */
  predicate Prunes(cfg: Config, s: ChainData, e: Event, s': ChainData, hash: Hash) {
    e.Tick? && hash !in s'.metadata && hash.HashOf? && s.refs != [] && hash.header.number + cfg.maxSize <= s.refs[0].height
  }

  lemma StepKeepsRefused(cfg: Config, w: World, e: Event, hash: Hash)
    requires Sane(cfg) && Consistent(w.chain) && Refused(w.chain, hash)
    ensures Refused(Step(cfg, w, e).chain, hash) || Prunes(cfg, w.chain, e, Step(cfg, w, e).chain, hash)
  {
    if MovesHead(e) {
      var (chain, n) := Handle(cfg, w.chain, e);
      HandleKeepsRefused(cfg, w.chain, e, hash);
      SendLoopKeepsRefused(cfg, w.(chain := chain), n, e.accepted, e.confirmOk, hash);
    } else if e.Tick? {
      CleanKeepsRefused(w.chain, cfg.maxSize, hash);
    }
  }

  ghost predicate PrunedAt(cfg: Config, events: seq<Event>, k: nat, hash: Hash)
    requires k < |events|
  {
    Prunes(cfg, ChainAt(cfg, events, k), events[k], ChainAt(cfg, events, k + 1), hash)
  }

  lemma RefusedNext(cfg: Config, events: seq<Event>, k: nat, hash: Hash)
    requires Sane(cfg) && k < |events| && Refused(ChainAt(cfg, events, k), hash)
    ensures Refused(ChainAt(cfg, events, k + 1), hash) || PrunedAt(cfg, events, k, hash)
  {
    assert events[..k + 1][..k] == events[..k];
    RunKeepsChainInv(cfg, events[..k]);
    StepKeepsRefused(cfg, Run(cfg, events[..k]), events[k], hash);
  }

  lemma {:induction false} StaysRefused(cfg: Config, events: seq<Event>, from: nat, n: nat, hash: Hash)
    requires Sane(cfg) && from <= n <= |events| && Refused(ChainAt(cfg, events, from), hash)
    requires forall k :: from <= k < n ==> !PrunedAt(cfg, events, k, hash)
    ensures Refused(ChainAt(cfg, events, n), hash)
  {
    if from < n {
      StaysRefused(cfg, events, from, n - 1, hash);
      RefusedNext(cfg, events, n - 1, hash);
    }
  }

  /** Once sent and confirmed, a block is refused from then on, unless it is pruned, at least maxSize below the head. */
  lemma RefusedFromThenOn(cfg: Config, events: seq<Event>, from: nat, header: Header)
    requires Sane(cfg) && from <= |events| && Refused(ChainAt(cfg, events, from), HashOf(header))
    requires forall k :: from <= k < |events| ==> !PrunedAt(cfg, events, k, HashOf(header))
    ensures Validate(Run(cfg, events).chain, HashOf(header), header.number) == AlreadySeen
  {
    assert events[..|events|] == events;
    StaysRefused(cfg, events, from, |events|, HashOf(header));
    RunKeepsChainInv(cfg, events);
    ValidateRefuses(Run(cfg, events).chain, header);
  }
}
