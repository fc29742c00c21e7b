/** Concrete runs in which every peer block passes validation, and what goes wrong in them. */
module ExampleRuns {
  import opened GoInts
  import opened EthTypes
  import opened ForkChoice
  import opened ChainStore
  import opened BdnRelay
  import opened ChainRuns

  // Runs with validation

  predicate Passes(s: ChainData, e: Event) {
    e.PeerBlock? ==> Validate(s, HashOf(e.block.header), e.block.header.number) == Acceptable
  }

  /** A run in which, as in the backend, blocks of peers that do not pass validation have no effect. */
  ghost function Screened(cfg: Config, events: seq<Event>): World {
    if events == [] then START
    else
      var w, e := Screened(cfg, events[..|events| - 1]), events[|events| - 1];
      if Passes(w.chain, e) then Step(cfg, w, e) else w
  }

  /** It is a run of some of the same events, so all that holds of every run holds of it. */
  lemma {:induction false} ScreenedIsRun(cfg: Config, events: seq<Event>) returns (passed: seq<Event>)
    ensures Run(cfg, passed) == Screened(cfg, events)
    ensures |passed| <= |events| && forall e :: e in passed ==> e in events
  {
    if events == [] {
      passed := [];
    } else {
      var before, e := events[..|events| - 1], events[|events| - 1];
      passed := ScreenedIsRun(cfg, before);
      if Passes(Screened(cfg, before).chain, e) {
        assert (passed + [e])[..|passed|] == passed;
        passed := passed + [e];
      }
    }
  }

  lemma ScreenedThen(cfg: Config, events: seq<Event>, e: Event) returns (longer: seq<Event>)
    requires Passes(Screened(cfg, events).chain, e)
    ensures longer == events + [e] && Screened(cfg, longer) == Step(cfg, Screened(cfg, events), e)
  {
    longer := events + [e];
    assert longer[..|longer| - 1] == events;
  }

  // What a wrap costs

  function Feed(header: Header): Event {
    PeerBlock(Block(header, Body(0)), None, {HashOf(header)}, true)
  }

  /** A block that starts a chain of its own takes over when one block makes a valid chain, and is sent. */
  lemma JumpUpdates(cfg: Config, refs: seq<BlockRef>, headers: HeaderStore, header: Header)
    requires cfg.minValidChain == 1 && Stored(headers, header)
    requires refs != [] ==> header.number > refs[0].height && header.parentHash != refs[0].hash
    ensures Update(cfg, refs, headers, header.number, HashOf(header), header.parentHash) == ([RefOf(header)], 1)
  {
    assert [] + [RefOf(header)] == [RefOf(header)] + [] == [RefOf(header)];
    if refs != [] {
      assert FillGap(headers, refs[0].height, 1, header.number, HashOf(header), []) == Jump([RefOf(header)]);
    }
  }

  lemma SingleHeadIsSent(w: World, header: Header)
    requires w.chain.refs == [RefOf(header)] && Stored(w.chain.headers, header)
    requires HashOf(header) in w.chain.metadata && HashOf(header) in w.chain.bodies
    requires !w.chain.metadata[HashOf(header)].sentToBDN
    ensures SendHeads(w, 1, {HashOf(header)})
            == w.(chain := w.chain.(metadata := MarkSent(w.chain.metadata, HashOf(header))), sent := w.sent + [HashOf(header)])
  {
    assert NewHeads(w.chain, 1, 1) == ([], NoError);
    var heads := HashesOf(NewHeads(w.chain, 0, 1).0);
    assert heads == [HashOf(header)] && heads[..0] == [];
    assert Deliver(MarkSent(w.chain.metadata, HashOf(header)), heads[..0], {HashOf(header)}).1 == [];
  }

  lemma SingleHeadIsConfirmed(w: World, header: Header)
    requires w.chain.refs == [RefOf(header)] && Stored(w.chain.headers, header)
    requires HashOf(header) in w.chain.metadata && HashOf(header) in w.chain.bodies
    requires !w.chain.metadata[HashOf(header)].confirmedMsgSent
    ensures var w' := AnnounceDeep(w, 0, true);
            && w'.sent == w.sent && w'.confirmed == w.confirmed + [HashOf(header)]
            && w'.chain == w.chain.(metadata := w'.chain.metadata) && w'.chain.metadata.Keys == w.chain.metadata.Keys
  {
    assert HeaderAtHeight(w.chain.refs, w.chain.headers, header.number) == Found(header);
  }

  /** A block that takes over is sent, and, when the head itself is the block to confirm, confirmed. */
  lemma JumpSends(cfg: Config, w: World, header: Header)
    requires cfg.minValidChain == 1 && cfg.confirmations == 0
    requires HashOf(header) !in w.chain.metadata
    requires w.chain.refs != [] ==> header.number > w.chain.refs[0].height && header.parentHash != w.chain.refs[0].hash
    ensures var w' := Step(cfg, w, Feed(header));
            && w'.chain.refs == [RefOf(header)] && w'.chain.headers == StoreHeader(w.chain.headers, header)
            && w'.chain.metadata.Keys == w.chain.metadata.Keys + {HashOf(header)}
            && w'.sent == w.sent + [HashOf(header)] && w'.confirmed == w.confirmed + [HashOf(header)]
  {
    var s1 := Receive(w.chain, Block(header, Body(0)), None, Blockchain);
    StoreHeaderAdds(w.chain.headers, header, header);
    JumpUpdates(cfg, s1.refs, s1.headers, header);
    var w2 := w.(chain := s1.(refs := [RefOf(header)]));
    SingleHeadIsSent(w2, header);
    SingleHeadIsConfirmed(SendHeads(w2, 1, {HashOf(header)}), header);
  }

  /** A block 0 on top of a head at 2^64 - 1 lowers the head to 0 without being counted. */
  lemma WrapLowersHead(cfg: Config, w: World, header: Header)
    requires WrapsOnto(w.chain.refs, header.number, header.parentHash)
    ensures Handle(cfg, w.chain, Feed(header)).1 == 0
    ensures var w' := Step(cfg, w, Feed(header));
            && w'.chain.refs == [RefOf(header)] + w.chain.refs && w'.sent == w.sent && w.confirmed <= w'.confirmed
            && w'.chain.metadata.Keys == w.chain.metadata.Keys + {HashOf(header)}
  {
    var (chain, n) := Handle(cfg, w.chain, Feed(header));
    SendConfirmedKeepsChain(cfg, w.(chain := chain), n, {HashOf(header)}, true);
    assert NewHeads(chain, 0, 0) == ([], NoError);
  }

  lemma PruneFive(w: World, five: Header, ten: Header)
    requires five.number == 5 && ten.number == 10 && w.chain.refs == [RefOf(ten)]
    requires Stored(w.chain.headers, five)
    ensures HashOf(five) !in Clean(w.chain, 1).metadata && Clean(w.chain, 1).refs == w.chain.refs
    ensures Clean(w.chain, 1).metadata.Keys <= w.chain.metadata.Keys
  {
  }

  const FIVE: Header := Header(5, ZERO_HASH, 0)
  const TEN: Header := Header(10, ZERO_HASH, 0)
  const LAST: Header := Header(TWO_64 - 1, ZERO_HASH, 0)
  const ZERO: Header := Header(0, HashOf(LAST), 0)
  const SMALL: Config := Config(1, 1, 1, 0)

  lemma NewBlockPasses(s: ChainData, e: Event)
    requires e.PeerBlock? && HashOf(e.block.header) !in s.metadata
    requires s.refs == [] || ToInt64(e.block.header.number) <= ToInt64(ToU64(s.refs[0].height + 100))
    ensures Passes(s, e)
  {
  }

  /** A block not seen before passes on an empty chain, after a block 0, and wherever it is not too far ahead. */
  lemma FeedPasses(s: ChainData, header: Header)
    requires HashOf(header) !in s.metadata
    requires s.refs == [] || s.refs[0].height == 0 || ToInt64(header.number) <= ToInt64(ToU64(s.refs[0].height + 100))
    ensures Passes(s, Feed(header))
  {
  }

  /** The highest number of all passes: it is read as -1. */
  lemma LastPasses(s: ChainData)
    requires HashOf(LAST) !in s.metadata && s.refs == [RefOf(TEN)]
    ensures Passes(s, Feed(LAST))
  {
    FeedPasses(s, LAST);
  }

  lemma ZeroPasses(s: ChainData)
    requires HashOf(ZERO) !in s.metadata && s.refs == [RefOf(LAST)]
    ensures Passes(s, Feed(ZERO))
  {
    FeedPasses(s, ZERO);
  }

  /** A block high above the head arrives, passes, and is sent. */
  lemma JumpScreened(events: seq<Event>, w: World, header: Header) returns (longer: seq<Event>, w': World)
    requires Screened(SMALL, events) == w && Passes(w.chain, Feed(header)) && HashOf(header) !in w.chain.metadata
    requires w.chain.refs != [] ==> header.number > w.chain.refs[0].height && header.parentHash != w.chain.refs[0].hash
    ensures Screened(SMALL, longer) == w'
    ensures w'.chain.refs == [RefOf(header)]
    ensures w'.sent == w.sent + [HashOf(header)] && w'.confirmed == w.confirmed + [HashOf(header)]
    ensures w'.chain.metadata.Keys == w.chain.metadata.Keys + {HashOf(header)}
    ensures forall h :: Stored(w.chain.headers, h) || h == header ==> Stored(w'.chain.headers, h)
  {
    JumpSends(SMALL, w, header);
    forall h { StoreHeaderAdds(w.chain.headers, header, h); }
    longer := ScreenedThen(SMALL, events, Feed(header));
    w' := Step(SMALL, w, Feed(header));
  }

  lemma SendFive() returns (events: seq<Event>, w: World)
    ensures Screened(SMALL, events) == w && w.chain.refs == [RefOf(FIVE)]
    ensures Stored(w.chain.headers, FIVE)
    ensures w.chain.metadata.Keys == {HashOf(FIVE)} && w.sent == w.confirmed == [HashOf(FIVE)]
  {
    FeedPasses(EMPTY_CHAIN, FIVE);
    events, w := JumpScreened([], START, FIVE);
  }

  lemma SendTen() returns (events: seq<Event>, w: World)
    ensures Screened(SMALL, events) == w && w.chain.refs == [RefOf(TEN)]
    ensures Stored(w.chain.headers, FIVE)
    ensures w.chain.metadata.Keys == {HashOf(FIVE), HashOf(TEN)} && w.sent == w.confirmed == [HashOf(FIVE), HashOf(TEN)]
  {
    events, w := SendFive();
    FeedPasses(w.chain, TEN);
    events, w := JumpScreened(events, w, TEN);
  }

  lemma PruneFiveNow() returns (events: seq<Event>, w: World)
    ensures Screened(SMALL, events) == w && w.chain.refs == [RefOf(TEN)]
    ensures w.chain.metadata.Keys <= {HashOf(TEN)} && w.sent == w.confirmed == [HashOf(FIVE), HashOf(TEN)]
  {
    var w0;
    events, w0 := SendTen();
    PruneFive(w0, FIVE, TEN);
    assert {HashOf(FIVE), HashOf(TEN)} - {HashOf(FIVE)} <= {HashOf(TEN)};
    events := ScreenedThen(SMALL, events, Tick);
    w := Step(SMALL, w0, Tick);
  }

  lemma SendLast() returns (events: seq<Event>, w: World)
    ensures Screened(SMALL, events) == w && w.chain.refs == [RefOf(LAST)]
    ensures w.chain.metadata.Keys <= {HashOf(TEN), HashOf(LAST)} 
    ensures w.sent == w.confirmed == [HashOf(FIVE), HashOf(TEN), HashOf(LAST)]
  {
    var w0;
    events, w0 := PruneFiveNow();
    LastPasses(w0.chain);
    events, w := JumpScreened(events, w0, LAST);
  }

  lemma WrapToZero() returns (events: seq<Event>, w: World)
    ensures Screened(SMALL, events) == w && w.chain.refs == [RefOf(ZERO), RefOf(LAST)]
    ensures w.chain.metadata.Keys <= {HashOf(TEN), HashOf(LAST), HashOf(ZERO)}
    ensures w.sent == [HashOf(FIVE), HashOf(TEN), HashOf(LAST)] <= w.confirmed
  {
    var w0;
    events, w0 := SendLast();
    ZeroPasses(w0.chain);
    WrapLowersHead(SMALL, w0, ZERO);
    events := ScreenedThen(SMALL, events, Feed(ZERO));
    w := Step(SMALL, w0, Feed(ZERO));
  }

  /**
   * When an event wraps the head a block can be sent twice, and confirmed twice, validation or not: block 5
   * is pruned under head 10, a block 0 on top of block 2^64 - 1 brings the head down to 0, block 5 is new again.
   */
  lemma WrapSendsTwice() returns (events: seq<Event>)
    ensures Sane(SMALL)
    ensures !NoDuplicates(Screened(SMALL, events).sent) && !NoDuplicates(Screened(SMALL, events).confirmed)
  {
    var w0, w;
    events, w0 := WrapToZero();
    FeedPasses(w0.chain, FIVE);
    events, w := JumpScreened(events, w0, FIVE);
    assert w.sent[0] == w.sent[|w0.sent|] == HashOf(FIVE) == w.confirmed[|w0.confirmed|] == w0.confirmed[0] == w.confirmed[0];
  }

  // What an ill-numbered block costs

  const O: Header := Header(4, ZERO_HASH, 0)
  const N: Header := Header(5, HashOf(O), 0)
  const P: Header := Header(5, HashOf(N), 0)
  const M: Header := Header(6, HashOf(P), 0)

  /** A block that nothing comes out of: its sends fail. */
  function Quiet(header: Header, id: nat): Event {
    PeerBlock(Block(header, Body(id)), None, {}, false)
  }

  /** The chain after a new block, apart from flags. */
  ghost predicate Holds(s: ChainData, s': ChainData, header: Header, id: nat) {
    && s'.headers == StoreHeader(s.headers, header) && s'.bodies == s.bodies[HashOf(header) := Body(id)]
    && s'.metadata.Keys == s.metadata.Keys + {HashOf(header)}
  }

  lemma QuietStep(cfg: Config, w: World, header: Header, id: nat)
    requires HashOf(header) !in w.chain.metadata
    ensures var s, s' := w.chain, Step(cfg, w, Quiet(header, id)).chain;
            && Holds(s, s', header, id)
            && s'.refs == Update(cfg, s.refs, s'.headers, header.number, HashOf(header), header.parentHash).0
  {
    var (chain, n) := Handle(cfg, w.chain, Quiet(header, id));
    SendConfirmedKeepsChain(cfg, w.(chain := chain), n, {}, false);
  }

  lemma BdnStep(cfg: Config, w: World, header: Header, id: nat)
    requires HashOf(header) !in w.chain.metadata
    ensures var s, s' := w.chain, Step(cfg, w, BdnBlock(Block(header, Body(id)), None)).chain;
            Holds(s, s', header, id) && s'.refs == s.refs
  {
  }

  lemma TakeO(cfg: Config) returns (events: seq<Event>, w: World)
    requires Sane(cfg)
    ensures Screened(cfg, events) == w && w.chain.refs == [RefOf(O)] && Holds(EMPTY_CHAIN, w.chain, O, 0)
  {
    NewBlockPasses(EMPTY_CHAIN, Quiet(O, 0));
    QuietStep(cfg, START, O, 0);
    events := ScreenedThen(cfg, [], Quiet(O, 0));
    w := Step(cfg, START, Quiet(O, 0));
  }

  /** n extends o, and is entered twice. */
  lemma NOnO(cfg: Config, w: World)
    requires Sane(cfg) && cfg.minValidChain > 1
    requires w.chain.refs == [RefOf(O)] && Holds(EMPTY_CHAIN, w.chain, O, 0)
    ensures Passes(w.chain, Quiet(N, 1))
    ensures var s := Step(cfg, w, Quiet(N, 1)).chain;
            s.refs == [RefOf(N), RefOf(N), RefOf(O)] && Holds(w.chain, s, N, 1)
  {
    NewBlockPasses(w.chain, Quiet(N, 1));
    QuietStep(cfg, w, N, 1);
    StoreHeaderAdds(w.chain.headers, N, N);
    DirectExtension(cfg, w.chain.refs, StoreHeader(w.chain.headers, N), N);
    assert [RefOf(N), RefOf(N)] + [RefOf(O)] == [RefOf(N), RefOf(N), RefOf(O)];
  }

  lemma TakeN(cfg: Config) returns (events: seq<Event>, w: World)
    requires Sane(cfg) && cfg.minValidChain > 1
    ensures Screened(cfg, events) == w && w.chain.refs == [RefOf(N), RefOf(N), RefOf(O)]
    ensures w.chain.metadata.Keys == {HashOf(O), HashOf(N)}
    ensures w.chain.bodies == map[HashOf(O) := Body(0), HashOf(N) := Body(1)]
  {
    var w0;
    events, w0 := TakeO(cfg);
    NOnO(cfg, w0);
    events := ScreenedThen(cfg, events, Quiet(N, 1));
    w := Step(cfg, w0, Quiet(N, 1));
  }

  lemma TakeP(cfg: Config) returns (events: seq<Event>, w: World)
    requires Sane(cfg) && cfg.minValidChain > 1
    ensures Screened(cfg, events) == w && w.chain.refs == [RefOf(N), RefOf(N), RefOf(O)] && Stored(w.chain.headers, P)
    ensures w.chain.metadata.Keys == {HashOf(O), HashOf(N), HashOf(P)}
    ensures w.chain.bodies == map[HashOf(O) := Body(0), HashOf(N) := Body(1), HashOf(P) := Body(2)]
  {
    var w0;
    events, w0 := TakeN(cfg);
    var e := BdnBlock(Block(P, Body(2)), None);
    BdnStep(cfg, w0, P, 2);
    StoreHeaderAdds(w0.chain.headers, P, P);
    events := ScreenedThen(cfg, events, e);
    w := Step(cfg, w0, e);
  }

  /** m stands on p, and p on n, the second of the two. */
  lemma MOnP(cfg: Config, w: World)
    requires Sane(cfg) && cfg.minValidChain > 1 && cfg.maxReorg > 1
    requires w.chain.refs == [RefOf(N), RefOf(N), RefOf(O)] && Stored(w.chain.headers, P)
    requires HashOf(M) !in w.chain.metadata
    ensures Passes(w.chain, Quiet(M, 3))
    ensures var s := Step(cfg, w, Quiet(M, 3)).chain;
            s.refs == [RefOf(M), RefOf(P), RefOf(N), RefOf(O)] && !Linked(s.refs) && Holds(w.chain, s, M, 3)
  {
    NewBlockPasses(w.chain, Quiet(M, 3));
    QuietStep(cfg, w, M, 3);
    StoreHeaderAdds(w.chain.headers, M, M);
    StoreHeaderAdds(w.chain.headers, M, P);
    IllNumberedBreaksLink(cfg, O, N, P, M, StoreHeader(w.chain.headers, M));
  }

  lemma TakeM(cfg: Config) returns (events: seq<Event>, s: ChainData)
    requires Sane(cfg) && cfg.minValidChain > 1 && cfg.maxReorg > 1
    ensures Screened(cfg, events).chain == s && s.refs == [RefOf(M), RefOf(P), RefOf(N), RefOf(O)]
    ensures !Linked(s.refs)
    ensures s.bodies == map[HashOf(O) := Body(0), HashOf(N) := Body(1), HashOf(P) := Body(2), HashOf(M) := Body(3)]
  {
    var w0;
    events, w0 := TakeP(cfg);
    MOnP(cfg, w0);
    events := ScreenedThen(cfg, events, Quiet(M, 3));
    s := Step(cfg, w0, Quiet(M, 3)).chain;
  }

  /**
   * With the shipped constants four blocks that pass validation lead to refs that are not linked, and
   * at depth 2 to the header of one block with the body of another.
   */
  lemma DepthMixesBlocks(confirmations: nat) returns (events: seq<Event>, s: ChainData)
    ensures Screened(Config(20, 10, 500, confirmations), events).chain == s && !Linked(s.refs)
    ensures s.refs == [RefOf(M), RefOf(P), RefOf(N), RefOf(O)]
    ensures s.bodies == map[HashOf(O) := Body(0), HashOf(N) := Body(1), HashOf(P) := Body(2), HashOf(M) := Body(3)]
    ensures BlockAtDepth(s, 2) == DepthBlock(P, Body(1))
  {
    var cfg := Config(20, 10, 500, confirmations);
    events, s := TakeM(cfg);
    var passed := ScreenedIsRun(cfg, events);
    RunKeepsChainInv(cfg, passed);
    DepthExact(s, 2);
  }
}
