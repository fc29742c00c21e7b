/** Relaying confirmed blocks to the BDN: each event of the backend, and whole runs of events. */
module BdnRelay {
  import opened GoInts
  import opened EthTypes
  import opened ForkChoice
  import opened ChainStore

  /** The chain, the block hashes handed to the BDN and the confirm messages sent, both oldest first. */
  datatype World = World(chain: ChainData, sent: seq<Hash>, confirmed: seq<Hash>)

  const START: World := World(EMPTY_CHAIN, [], [])

  /**
   * One event of the backend, handled to completion. `accepted` holds the blocks whose conversion
   * and channel send succeed this time; `confirmOk` tells whether those of the confirm message do.
   */
  datatype Event =
    | PeerBlock(block: Block, difficulty: Option<nat>, accepted: set<Hash>, confirmOk: bool)
    | Confirmed(hash: Hash, accepted: set<Hash>, confirmOk: bool)
    | BdnBlock(block: Block, difficulty: Option<nat>)
    | Tick

  /** Send the heads from the last (oldest) to the first, marking each one that gets through. */
  function Deliver(m: map<Hash, Metadata>, heads: seq<Hash>, accepted: set<Hash>): (map<Hash, Metadata>, seq<Hash>) {
    if heads == [] then (m, [])
    else
      var oldest := heads[|heads| - 1];
      if oldest in accepted then
        var (m', sent) := Deliver(MarkSent(m, oldest), heads[..|heads| - 1], accepted);
        (m', [oldest] + sent)
      else Deliver(m, heads[..|heads| - 1], accepted)
  }

  function HashesOf(heads: seq<BlockInfo>): (r: seq<Hash>)
    ensures |r| == |heads| && forall k :: 0 <= k < |heads| ==> r[k] == HashOf(heads[k].header)
  {
    seq(|heads|, k requires 0 <= k < |heads| => HashOf(heads[k].header))
  }

  function SendHeads(w: World, count: nat, accepted: set<Hash>): World {
    var heads := HashesOf(NewHeads(w.chain, 0, count).0);
    var (m, sent) := Deliver(w.chain.metadata, heads, accepted);
    w.(chain := w.chain.(metadata := m), sent := w.sent + sent)
  }

  function AnnounceDeep(w: World, depth: nat, ok: bool): World {
    match BlockAtDepth(w.chain, depth)
    case DepthError => w
    case NilHeader => w
    case DepthBlock(header, _) =>
      var hash, m := HashOf(header), w.chain.metadata;
      if hash !in m || m[hash].confirmedMsgSent || !ok then w
      else w.(chain := w.chain.(metadata := StoreMetadata(m, hash, m[hash].height, m[hash].confirmed, true)),
              confirmed := w.confirmed + [hash])
  }

  function SendConfirmed(cfg: Config, w: World, count: nat, accepted: set<Hash>, ok: bool): World {
    AnnounceDeep(SendHeads(w, count, accepted), cfg.confirmations, ok)
  }

  /** The events that may move the head and are followed by the send loop. */
  predicate MovesHead(e: Event) {
    e.PeerBlock? || e.Confirmed?
  }

  /** Such an event before its send loop: the chain, and the number of new heads. */
  function Handle(cfg: Config, s: ChainData, e: Event): (ChainData, nat)
    requires MovesHead(e)
  {
    if e.PeerBlock? then AddBlock(cfg, s, e.block, e.difficulty, Blockchain) else ConfirmBlock(cfg, s, e.hash)
  }

  /** What it offers to the refs: the chain with the block stored or confirmed, and the header, if there is one. */
  function Ready(s: ChainData, e: Event): (ChainData, Option<Header>)
    requires MovesHead(e)
  {
    match e
    case PeerBlock(block, difficulty, _, _) => (Receive(s, block, difficulty, Blockchain), Some(block.header))
    case Confirmed(hash, _, _) => Confirm(s, hash)
  }

  /** The height it is offered at. */
  function OfferedAt(s: ChainData, e: Event): U64
    requires MovesHead(e) && Ready(s, e).1.Some?
  {
    if e.PeerBlock? then e.block.header.number else s.metadata[e.hash].height
  }

  /** The event offers a block 0 on top of a head at height 2^64 - 1. */
  predicate WrapsHead(s: ChainData, e: Event) {
    && MovesHead(e) && Ready(s, e).1.Some?
    && WrapsOnto(s.refs, OfferedAt(s, e), Ready(s, e).1.value.parentHash)
  }

  ghost function Step(cfg: Config, w: World, e: Event): World {
    if MovesHead(e) then
      var (chain, n) := Handle(cfg, w.chain, e);
      SendConfirmed(cfg, w.(chain := chain), n, e.accepted, e.confirmOk)
    else if e.Tick? then w.(chain := Clean(w.chain, cfg.maxSize))
    else if HasBlock(w.chain, HashOf(e.block.header)) then w
    else w.(chain := AddBlock(cfg, w.chain, e.block, e.difficulty, BDN).0)
  }

  ghost function Run(cfg: Config, events: seq<Event>): World {
    if events == [] then START else Step(cfg, Run(cfg, events[..|events| - 1]), events[|events| - 1])
  }

  /** The chain of a run before its k-th event. */
  ghost function ChainAt(cfg: Config, events: seq<Event>, k: nat): ChainData
    requires k <= |events|
  {
    Run(cfg, events[..k]).chain
  }

  /** No event of a run, from a given one on, wraps the head. */
  ghost predicate NoneWraps(cfg: Config, events: seq<Event>, from: nat) {
    forall k :: from <= k < |events| ==> !WrapsHead(ChainAt(cfg, events, k), events[k])
  }

  lemma NoneWrapsBefore(cfg: Config, events: seq<Event>, from: nat)
    requires from < |events| && NoneWraps(cfg, events, from)
    ensures NoneWraps(cfg, events[..|events| - 1], from)
    ensures !WrapsHead(Run(cfg, events[..|events| - 1]).chain, events[|events| - 1])
  {
    var before := events[..|events| - 1];
    assert !WrapsHead(ChainAt(cfg, events, |events| - 1), events[|events| - 1]);
    forall k | from <= k < |before| ensures !WrapsHead(ChainAt(cfg, before, k), before[k]) {
      assert before[..k] == events[..k] && !WrapsHead(ChainAt(cfg, events, k), events[k]);
    }
  }

  predicate NoDuplicates(hashes: seq<Hash>) {
    forall i, j :: 0 <= i < j < |hashes| ==> hashes[i] != hashes[j]
  }

  // Delivery

  lemma {:induction false} DeliverMarks(m: map<Hash, Metadata>, heads: seq<Hash>, accepted: set<Hash>)
    requires NoDuplicates(heads) && forall k :: 0 <= k < |heads| ==> heads[k] in m
    ensures var (m', sent) := Deliver(m, heads, accepted);
            && NoDuplicates(sent)
            && (forall h :: h in sent <==> h in heads && h in accepted)
            && m' == map h | h in m :: if h in sent then m[h].(sentToBDN := true) else m[h]
  {
    if heads != [] {
      var older, oldest := heads[..|heads| - 1], heads[|heads| - 1];
      assert forall h :: h in heads <==> h in older || h == oldest;
      DeliverMarks(if oldest in accepted then MarkSent(m, oldest) else m, older, accepted);
    } else {
      assert m == map h | h in m :: m[h];
    }
  }

  ghost predicate Falling(hashes: seq<Hash>, rank: Hash -> int) {
    forall i, j :: 0 <= i < j < |hashes| ==> rank(hashes[i]) > rank(hashes[j])
  }

  ghost predicate Rising(hashes: seq<Hash>, rank: Hash -> int) {
    forall i, j :: 0 <= i < j < |hashes| ==> rank(hashes[i]) < rank(hashes[j])
  }

  /** Heads that descend by any measure go out in ascending order of it. */
  lemma {:induction false} DeliverAscends(m: map<Hash, Metadata>, heads: seq<Hash>, accepted: set<Hash>,
          rank: Hash -> int)
    requires Falling(heads, rank)
    ensures var sent := Deliver(m, heads, accepted).1;
            Rising(sent, rank) && forall h :: h in sent ==> h in heads
  {
    if heads != [] {
      var older, oldest := heads[..|heads| - 1], heads[|heads| - 1];
      var m' := if oldest in accepted then MarkSent(m, oldest) else m;
      DeliverAscends(m', older, accepted, rank);
      var rest := Deliver(m', older, accepted).1;
      forall k | 0 <= k < |rest| ensures rank(oldest) < rank(rest[k]) {
        assert rest[k] in older;
      }
    }
  }

  // Progress of the chain under one handled block

  /** What the double-send argument needs of a chain: indexed maps, and a head whose height is its number. */
  ghost predicate Core(s: ChainData) {
    && Indexed(s.headers, s.metadata)
    && (s.refs != [] ==> GoodRef(s.headers, s.refs[0]))
  }

  /** No flag is lost. */
  ghost predicate KeepsFlags(m: map<Hash, Metadata>, m': map<Hash, Metadata>) {
    forall h :: h in m ==> h in m' && (m[h].sentToBDN ==> m'[h].sentToBDN) && (m[h].confirmedMsgSent ==> m'[h].confirmedMsgSent)
  }

  /** The head does not drop; the n new refs, and all refs not seen before, are less than maxReorg below the old head. */
  ghost predicate Rises(cfg: Config, refs: seq<BlockRef>, refs': seq<BlockRef>, n: nat) {
    && n <= |refs'|
    && (forall k :: 0 <= k < n ==> refs'[k].hash.HashOf? && refs'[k].height == refs'[k].hash.header.number)
    && (forall k :: 0 <= k < n - 1 ==> IsParent(refs'[k].hash, refs'[k + 1].hash))
    && (forall k :: 0 <= k < n && k <= refs'[0].height ==> refs'[k].height == refs'[0].height - k)
    && (refs != [] ==>
          && refs' != [] && refs'[0].height >= refs[0].height
          && (forall k :: 0 <= k < n ==> refs'[k].height > refs[0].height - cfg.maxReorg)
          && (forall k :: n <= k < |refs'| ==> OnChain(refs'[k].hash, refs) || (n > 0 && refs'[k] == refs'[0])))
  }

  lemma BranchRises(headers: HeaderStore, added: seq<BlockRef>, header: Header, low: int, k: nat)
    requires Filed(headers) && Branch(headers, added, header.number, HashOf(header))
    requires |added| <= header.number - low && k < |added|
    ensures added[k].hash.HashOf? && added[k].height == added[k].hash.header.number > low
    ensures k <= header.number ==> added[k].height == header.number - k
  {
    assert FindHeader(headers, added[k].height, added[k].hash).Some?;
  }

  lemma UpdateRises(cfg: Config, refs: seq<BlockRef>, headers: HeaderStore, header: Header)
    requires Sane(cfg) && Filed(headers) && Stored(headers, header)
    requires (refs != [] ==> GoodRef(headers, refs[0])) && !WrapsOnto(refs, header.number, header.parentHash)
    ensures var (refs', n) := Update(cfg, refs, headers, header.number, HashOf(header), header.parentHash);
            Rises(cfg, refs, refs', n) && refs' != [] && GoodRef(headers, refs'[0]) && (refs == [] ==> n == |refs'|)
  {
    if refs != [] {
      UpdateShape(cfg, refs, headers, header);
      var (refs', n) := Update(cfg, refs, headers, header.number, HashOf(header), header.parentHash);
      var added, kept := refs'[..n], refs'[n..];
      forall k | 0 <= k < n
        ensures refs'[k].hash.HashOf? && refs'[k].height == refs'[k].hash.header.number > refs[0].height - cfg.maxReorg
        ensures k <= refs'[0].height ==> refs'[k].height == refs'[0].height - k
      {
        BranchRises(headers, added, header, refs[0].height - cfg.maxReorg, k);
        assert added[k] == refs'[k];
      }
      forall k | 0 <= k < n - 1 ensures IsParent(refs'[k].hash, refs'[k + 1].hash) {
        assert added[k] == refs'[k] && added[k + 1] == refs'[k + 1];
      }
      forall k | n <= k < |refs'| ensures OnChain(refs'[k].hash, refs) || (n > 0 && refs'[k] == refs'[0]) {
        assert refs'[k] == kept[k - n];
      }
    }
  }

  lemma ReceiveKeepsCore(s: ChainData, block: Block, difficulty: Option<nat>, source: BlockSource)
    requires Core(s)
    ensures var s1 := Receive(s, block, difficulty, source);
            Core(s1) && Stored(s1.headers, block.header) && s1.refs == s.refs
  {
    var header, hash := block.header, HashOf(block.header);
    if HasBlock(s, hash) {
      assert s.metadata[hash].height == header.number;
    } else {
      StoreBlockKeepsIndexed(s.headers, s.metadata, header, source == Blockchain);
      StoreHeaderAdds(s.headers, header, header);
      if s.refs != [] {
        StoreHeaderAdds(s.headers, header, s.refs[0].hash.header);
      }
    }
  }

  lemma ReceiveKeepsFlags(s: ChainData, block: Block, difficulty: Option<nat>, source: BlockSource)
    ensures KeepsFlags(s.metadata, Receive(s, block, difficulty, source).metadata)
  {
  }

  lemma RisesIdle(cfg: Config, refs: seq<BlockRef>)
    ensures Rises(cfg, refs, refs, 0)
  {
  }

  lemma AddBlockRises(cfg: Config, s: ChainData, block: Block, difficulty: Option<nat>, source: BlockSource)
    requires Sane(cfg) && Core(s)
    requires source == Blockchain ==> !WrapsOnto(s.refs, block.header.number, block.header.parentHash)
    ensures var (s', n) := AddBlock(cfg, s, block, difficulty, source);
            && Core(s') && KeepsFlags(s.metadata, s'.metadata) && Rises(cfg, s.refs, s'.refs, n)
            && (source == BDN ==> s'.refs == s.refs)
  {
    ReceiveKeepsCore(s, block, difficulty, source);
    ReceiveKeepsFlags(s, block, difficulty, source);
    if source == BDN {
      RisesIdle(cfg, s.refs);
    } else {
      var s1 := Receive(s, block, difficulty, source);
      UpdateRises(cfg, s1.refs, s1.headers, block.header);
    }
  }

  lemma MarkedKeepsCore(s: ChainData, m: map<Hash, Metadata>)
    requires Core(s) && m.Keys == s.metadata.Keys && forall h :: h in m ==> m[h].height == s.metadata[h].height
    ensures Core(s.(metadata := m))
  {
  }

  lemma ConfirmBlockRises(cfg: Config, s: ChainData, hash: Hash)
    requires Sane(cfg) && Core(s)
    requires hash in s.metadata && hash.HashOf? ==> !WrapsOnto(s.refs, hash.header.number, hash.header.parentHash)
    ensures var (s', n) := ConfirmBlock(cfg, s, hash);
            Core(s') && KeepsFlags(s.metadata, s'.metadata) && Rises(cfg, s.refs, s'.refs, n)
  {
    if hash in s.metadata {
      var m := s.metadata[hash := s.metadata[hash].(confirmed := true)];
      MarkedKeepsCore(s, m);
      assert KeepsFlags(s.metadata, m);
      UpdateRises(cfg, s.refs, s.headers, hash.header);
    } else {
      RisesIdle(cfg, s.refs);
    }
  }

  lemma CleanKeepsCore(s: ChainData, maxSize: nat)
    requires Core(s) && 0 < maxSize < TWO_63
    ensures Core(Clean(s, maxSize))
    ensures s.refs != [] ==> Clean(s, maxSize).refs != [] && Clean(s, maxSize).refs[0] == s.refs[0]
  {
    CleanKeepsIndexed(s, maxSize);
    if s.refs != [] && |s.headers| >= maxSize {
      CleanKeepsStored(s, maxSize, s.refs[0].hash.header);
      assert !Doomed(s.refs[0].height, maxSize, s.refs[0].height);
    }
  }

  // No block is sent twice

  /** A block once sent is flagged, or lies so far below the head that it can never be a new head again. */
  ghost predicate Settled(cfg: Config, s: ChainData, hash: Hash) {
    && hash.HashOf? && s.refs != []
    && ((hash in s.metadata && s.metadata[hash].sentToBDN) || hash.header.number + cfg.maxSize <= s.refs[0].height)
  }

  ghost predicate SentInv(cfg: Config, w: World) {
    Core(w.chain) && NoDuplicates(w.sent) && forall h :: h in w.sent ==> Settled(cfg, w.chain, h)
  }

  lemma RisesKeepsSettled(cfg: Config, s: ChainData, s': ChainData, n: nat, hash: Hash)
    requires Settled(cfg, s, hash) && KeepsFlags(s.metadata, s'.metadata) && Rises(cfg, s.refs, s'.refs, n)
    ensures Settled(cfg, s', hash)
  {
  }

  /** Among the new heads, a block sent before is always flagged: it cannot lie deep enough to have lost its flag. */
  lemma SettledHeadIsFlagged(cfg: Config, s: ChainData, s': ChainData, n: nat, k: nat)
    requires Sane(cfg) && KeepsFlags(s.metadata, s'.metadata) && Rises(cfg, s.refs, s'.refs, n) && k < n
    requires Settled(cfg, s, s'.refs[k].hash)
    ensures s'.refs[k].hash in s'.metadata && s'.metadata[s'.refs[k].hash].sentToBDN
  {
  }

  lemma HeadHashes(cfg: Config, s: ChainData, s': ChainData, n: nat) returns (heads: seq<Hash>)
    requires Rises(cfg, s.refs, s'.refs, n)
    ensures heads == HashesOf(NewHeads(s', 0, n).0) && |heads| <= n && NoDuplicates(heads)
    ensures forall k :: 0 <= k < |heads| ==> heads[k] == s'.refs[k].hash && heads[k] in s'.metadata && !s'.metadata[heads[k]].sentToBDN
  {
    heads := HashesOf(NewHeads(s', 0, n).0);
    NewHeadsAreUnsentRefs(s', 0, n);
    forall i, j | 0 <= i < j < |heads| ensures heads[i] != heads[j] {
      LineageFalls(s'.refs, i, j);
    }
  }

  /** The number in a hash. */
  function NumberOf(hash: Hash): int {
    if hash.HashOf? then hash.header.number else 0
  }

  /**
   * The blocks of one send loop go out ancestors first, and in ascending order of number as well
   * unless the new refs go down past height 0.
   */
  lemma SendHeadsAscends(cfg: Config, w: World, s': ChainData, n: nat, accepted: set<Hash>)
    requires Rises(cfg, w.chain.refs, s'.refs, n)
    ensures var sent := SendHeads(w.(chain := s'), n, accepted).sent;
            && w.sent <= sent && Rising(sent[|w.sent|..], hash => Lineage(hash))
            && (n > 0 && n <= s'.refs[0].height + 1 ==> Rising(sent[|w.sent|..], NumberOf))
  {
    var heads := HeadHashes(cfg, w.chain, s', n);
    var newly := Deliver(s'.metadata, heads, accepted).1;
    assert (w.sent + newly)[|w.sent|..] == newly;
    forall i, j | 0 <= i < j < |heads| ensures Lineage(heads[i]) > Lineage(heads[j]) {
      LineageFalls(s'.refs, i, j);
    }
    DeliverAscends(s'.metadata, heads, accepted, hash => Lineage(hash));
    if n > 0 && n <= s'.refs[0].height + 1 {
      assert forall k :: 0 <= k < |heads| ==> NumberOf(heads[k]) == s'.refs[k].height == s'.refs[0].height - k;
      DeliverAscends(s'.metadata, heads, accepted, NumberOf);
    }
  }

  lemma NoDuplicatesJoin(a: seq<Hash>, b: seq<Hash>)
    requires NoDuplicates(a) && NoDuplicates(b) && forall h :: h in a ==> h !in b
    ensures NoDuplicates(a + b)
  {
    var all := a + b;
    forall i, j | 0 <= i < j < |all| ensures all[i] != all[j] {
      if i < |a| <= j {
        assert all[i] in a && all[j] in b;
      }
    }
  }

  lemma SentBeforeNotAgain(cfg: Config, s: ChainData, s': ChainData, n: nat, hash: Hash)
    requires Sane(cfg) && Settled(cfg, s, hash) && KeepsFlags(s.metadata, s'.metadata) && Rises(cfg, s.refs, s'.refs, n)
    ensures hash !in HashesOf(NewHeads(s', 0, n).0)
  {
    var heads := HeadHashes(cfg, s, s', n);
    forall k | 0 <= k < |heads| ensures heads[k] != hash {
      if heads[k] == hash {
        SettledHeadIsFlagged(cfg, s, s', n, k);
      }
    }
  }

  lemma DeliveredFlags(m: map<Hash, Metadata>, heads: seq<Hash>, accepted: set<Hash>)
    requires NoDuplicates(heads) && forall k :: 0 <= k < |heads| ==> heads[k] in m
    ensures var (m', sent) := Deliver(m, heads, accepted);
            && KeepsFlags(m, m') && m'.Keys == m.Keys && (forall h :: h in m ==> m'[h].height == m[h].height)
            && NoDuplicates(sent) && (forall h :: h in sent ==> h in heads && m'[h].sentToBDN)
  {
    DeliverMarks(m, heads, accepted);
  }

  lemma FlagsKeepSettled(cfg: Config, s: ChainData, m: map<Hash, Metadata>, hash: Hash)
    requires Settled(cfg, s, hash) && KeepsFlags(s.metadata, m)
    ensures Settled(cfg, s.(metadata := m), hash)
  {
  }

  lemma SentStaySettled(cfg: Config, w: World, s': ChainData, n: nat, m: map<Hash, Metadata>)
    requires Sane(cfg) && SentInv(cfg, w) && KeepsFlags(s'.metadata, m)
    requires KeepsFlags(w.chain.metadata, s'.metadata) && Rises(cfg, w.chain.refs, s'.refs, n)
    ensures forall h :: h in w.sent ==> h !in HashesOf(NewHeads(s', 0, n).0) && Settled(cfg, s'.(metadata := m), h)
  {
    forall h | h in w.sent ensures h !in HashesOf(NewHeads(s', 0, n).0) && Settled(cfg, s'.(metadata := m), h) {
      SentBeforeNotAgain(cfg, w.chain, s', n, h);
      RisesKeepsSettled(cfg, w.chain, s', n, h);
      FlagsKeepSettled(cfg, s', m, h);
    }
  }

  lemma SendHeadsKeepsInv(cfg: Config, w: World, s': ChainData, n: nat, accepted: set<Hash>)
    requires Sane(cfg) && SentInv(cfg, w)
    requires Core(s') && KeepsFlags(w.chain.metadata, s'.metadata) && Rises(cfg, w.chain.refs, s'.refs, n)
    ensures SentInv(cfg, SendHeads(w.(chain := s'), n, accepted))
  {
    var heads := HeadHashes(cfg, w.chain, s', n);
    DeliveredFlags(s'.metadata, heads, accepted);
    var (m, sent) := Deliver(s'.metadata, heads, accepted);
    SentStaySettled(cfg, w, s', n, m);
    NoDuplicatesJoin(w.sent, sent);
    MarkedKeepsCore(s', m);
    forall h | h in sent ensures Settled(cfg, s'.(metadata := m), h) {
      var k :| 0 <= k < |heads| && heads[k] == h;
      assert s'.refs[k].hash == h;
    }
  }

  lemma AnnounceDeepKeepsInv(cfg: Config, w: World, depth: nat, ok: bool)
    requires SentInv(cfg, w)
    ensures SentInv(cfg, AnnounceDeep(w, depth, ok))
  {
  }

  lemma CleanKeepsInv(cfg: Config, w: World)
    requires Sane(cfg) && SentInv(cfg, w)
    ensures SentInv(cfg, w.(chain := Clean(w.chain, cfg.maxSize)))
  {
    CleanKeepsCore(w.chain, cfg.maxSize);
    forall h | h in w.sent ensures Settled(cfg, Clean(w.chain, cfg.maxSize), h) {
      if h in w.chain.metadata && |w.chain.headers| >= cfg.maxSize {
        CleanKeepsStored(w.chain, cfg.maxSize, h.header);
        if Pruned(w.chain, cfg.maxSize, h) {
          DoomedIsDeep(w.chain.refs[0].height, cfg.maxSize, h.header.number);
        }
      }
    }
  }

  lemma HandleRises(cfg: Config, s: ChainData, e: Event)
    requires Sane(cfg) && Core(s) && MovesHead(e) && !WrapsHead(s, e)
    ensures var (s', n) := Handle(cfg, s, e);
            Core(s') && KeepsFlags(s.metadata, s'.metadata) && Rises(cfg, s.refs, s'.refs, n)
  {
    if e.PeerBlock? {
      AddBlockRises(cfg, s, e.block, e.difficulty, Blockchain);
    } else {
      ConfirmBlockRises(cfg, s, e.hash);
    }
  }

  lemma StepKeepsInv(cfg: Config, w: World, e: Event)
    requires Sane(cfg) && SentInv(cfg, w) && !WrapsHead(w.chain, e)
    ensures SentInv(cfg, Step(cfg, w, e))
  {
    if MovesHead(e) {
      HandleRises(cfg, w.chain, e);
      var (chain, n) := Handle(cfg, w.chain, e);
      SendHeadsKeepsInv(cfg, w, chain, n, e.accepted);
      AnnounceDeepKeepsInv(cfg, SendHeads(w.(chain := chain), n, e.accepted), cfg.confirmations, e.confirmOk);
    } else if e.Tick? {
      CleanKeepsInv(cfg, w);
    } else {
      AddBlockRises(cfg, w.chain, e.block, e.difficulty, BDN);
      var chain := AddBlock(cfg, w.chain, e.block, e.difficulty, BDN).0;
      forall h | h in w.sent ensures Settled(cfg, chain, h) {
        RisesKeepsSettled(cfg, w.chain, chain, 0, h);
      }
    }
  }

  lemma {:induction false} RunKeepsInv(cfg: Config, events: seq<Event>)
    requires Sane(cfg) && NoneWraps(cfg, events, 0)
    ensures SentInv(cfg, Run(cfg, events))
  {
    if events != [] {
      NoneWrapsBefore(cfg, events, 0);
      RunKeepsInv(cfg, events[..|events| - 1]);
      StepKeepsInv(cfg, Run(cfg, events[..|events| - 1]), events[|events| - 1]);
    }
  }

  /**
   * Over every run in which no event wraps the head, no block is handed to the BDN twice: not after a
   * reorg and back, not after pruning.
   */
  lemma NeverSentTwice(cfg: Config, events: seq<Event>)
    requires Sane(cfg) && NoneWraps(cfg, events, 0)
    ensures NoDuplicates(Run(cfg, events).sent)
  {
    RunKeepsInv(cfg, events);
  }
}
