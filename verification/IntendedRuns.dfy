/** Runs in which a direct extension is entered once, as the comment in the fork choice has it. */
module IntendedRuns {
  import opened GoInts
  import opened EthTypes
  import opened ForkChoice
  import opened BranchWalk
  import opened ChainStore
  import opened BdnRelay
  import ChainRuns
  import HeaderQueries

  /** An event that may move the head, before its send loop: as BdnRelay.Handle, but with the intended update. */
  function Handle(cfg: Config, s: ChainData, e: Event): (ChainData, nat)
    requires MovesHead(e)
  {
    match Ready(s, e)
    case (s1, None) => (s1, 0)
    case (s1, Some(header)) => Offer(cfg, s1, OfferedAt(s, e), header)
  }

  function Offer(cfg: Config, s: ChainData, height: U64, header: Header): (ChainData, nat) {
    var (refs, n) := UpdateIntended(cfg, s.refs, s.headers, height, HashOf(header), header.parentHash);
    (s.(refs := refs), n)
  }

  ghost function Step(cfg: Config, w: World, e: Event): World {
    if MovesHead(e) then
      var (chain, n) := Handle(cfg, w.chain, e);
      SendConfirmed(cfg, w.(chain := chain), n, e.accepted, e.confirmOk)
    else BdnRelay.Step(cfg, w, e)
  }

  ghost function Run(cfg: Config, events: seq<Event>): World {
    if events == [] then START else Step(cfg, Run(cfg, events[..|events| - 1]), events[|events| - 1])
  }

  /** The chain of a run before its k-th event. */
  ghost function ChainAt(cfg: Config, events: seq<Event>, k: nat): ChainData
    requires k <= |events|
  {
    Run(cfg, events[..k]).chain
  }

  /** No event of a run wraps the head. */
  ghost predicate NoneWraps(cfg: Config, events: seq<Event>) {
    forall k :: 0 <= k < |events| ==> !WrapsHead(ChainAt(cfg, events, k), events[k])
  }

  lemma OfferKeepsChainInv(cfg: Config, s: ChainData, header: Header)
    requires Sane(cfg) && ChainRuns.ChainInv(s) && Stored(s.headers, header)
    ensures ChainRuns.ChainInv(Offer(cfg, s, header.number, header).0)
  {
    if s.refs != [] && Extends(s.refs, header.number, header.parentHash) {
      ExtensionKeepsShallow(s.refs, header);
      ExtensionKeepsHashLinked(s.refs, header);
    } else {
      UpdateKeepsGood(cfg, s.refs, s.headers, header);
      UpdateKeepsShallow(cfg, s.refs, s.headers, header);
      UpdateKeepsHashLinked(cfg, s.refs, s.headers, header);
    }
  }

  lemma HandleKeepsChainInv(cfg: Config, s: ChainData, e: Event)
    requires Sane(cfg) && ChainRuns.ChainInv(s) && MovesHead(e)
    ensures ChainRuns.ChainInv(Handle(cfg, s, e).0)
  {
    ChainRuns.ReadyIsStored(s, e);
    match Ready(s, e)
    case (s1, None) =>
    case (s1, Some(header)) => OfferKeepsChainInv(cfg, s1, header);
  }

  lemma StepKeepsChainInv(cfg: Config, w: World, e: Event)
    requires Sane(cfg) && ChainRuns.ChainInv(w.chain)
    ensures ChainRuns.ChainInv(Step(cfg, w, e).chain)
  {
    if MovesHead(e) {
      var (chain, n) := Handle(cfg, w.chain, e);
      HandleKeepsChainInv(cfg, w.chain, e);
      ChainRuns.SendConfirmedKeepsChain(cfg, w.(chain := chain), n, e.accepted, e.confirmOk);
      ChainRuns.FlagsKeepConsistent(chain, Step(cfg, w, e).chain);
    } else {
      ChainRuns.StepKeepsChainInv(cfg, w, e);
    }
  }

  /** After every run of events whatever, the maps and the refs agree, and the refs are hash-linked and shallow. */
  lemma {:induction false} RunKeepsChainInv(cfg: Config, events: seq<Event>)
    requires Sane(cfg)
    ensures ChainRuns.ChainInv(Run(cfg, events).chain)
  {
    if events != [] {
      RunKeepsChainInv(cfg, events[..|events| - 1]);
      StepKeepsChainInv(cfg, Run(cfg, events[..|events| - 1]), events[|events| - 1]);
    }
  }

  /** An event keeps adjacent refs parent-linked with heights one apart exactly when it does not wrap the head. */
  lemma HandleKeepsStrictIff(cfg: Config, s: ChainData, e: Event)
    requires Sane(cfg) && Consistent(s) && Strict(s.refs) && MovesHead(e)
    ensures Strict(Handle(cfg, s, e).0.refs) <==> !WrapsHead(s, e)
  {
    ChainRuns.ReadyIsStored(s, e);
    match Ready(s, e)
    case (s1, None) =>
    case (s1, Some(header)) =>
      if s.refs != [] {
        IntendedUpdate(cfg, s1.refs, s1.headers, header);
      }
  }

  lemma StepKeepsStrictIff(cfg: Config, w: World, e: Event)
    requires Sane(cfg) && Consistent(w.chain) && Strict(w.chain.refs)
    ensures Strict(Step(cfg, w, e).chain.refs) <==> !WrapsHead(w.chain, e)
  {
    if MovesHead(e) {
      var (chain, n) := Handle(cfg, w.chain, e);
      HandleKeepsStrictIff(cfg, w.chain, e);
      ChainRuns.SendConfirmedKeepsChain(cfg, w.(chain := chain), n, e.accepted, e.confirmOk);
    }
  }

  lemma NextIsStrictIff(cfg: Config, events: seq<Event>, k: nat)
    requires Sane(cfg) && k < |events| && Strict(ChainAt(cfg, events, k).refs)
    ensures Strict(ChainAt(cfg, events, k + 1).refs) <==> !WrapsHead(ChainAt(cfg, events, k), events[k])
  {
    assert events[..k + 1][..k] == events[..k];
    RunKeepsChainInv(cfg, events[..k]);
    StepKeepsStrictIff(cfg, Run(cfg, events[..k]), events[k]);
  }

  lemma {:induction false} StrictUpTo(cfg: Config, events: seq<Event>, n: nat)
    requires Sane(cfg) && n <= |events|
    requires forall k :: 0 <= k < n ==> !WrapsHead(ChainAt(cfg, events, k), events[k])
    ensures Strict(ChainAt(cfg, events, n).refs)
  {
    if n > 0 {
      StrictUpTo(cfg, events, n - 1);
      NextIsStrictIff(cfg, events, n - 1);
    }
  }

  /** All states of a run have strict refs exactly when none of its events wraps the head. */
  lemma RunStrictIff(cfg: Config, events: seq<Event>)
    requires Sane(cfg)
    ensures (forall k :: 0 <= k <= |events| ==> Strict(ChainAt(cfg, events, k).refs)) <==> NoneWraps(cfg, events)
  {
    if NoneWraps(cfg, events) {
      forall k | 0 <= k <= |events| ensures Strict(ChainAt(cfg, events, k).refs) {
        StrictUpTo(cfg, events, k);
      }
    }
    if forall k :: 0 <= k <= |events| ==> Strict(ChainAt(cfg, events, k).refs) {
      forall k | 0 <= k < |events| ensures !WrapsHead(ChainAt(cfg, events, k), events[k]) {
        NextIsStrictIff(cfg, events, k);
      }
    }
  }

  /** So as long as no event wraps the head, adjacent refs are parent-linked with heights one apart. */
  lemma RunKeepsStrict(cfg: Config, events: seq<Event>)
    requires Sane(cfg) && NoneWraps(cfg, events)
    ensures Consistent(Run(cfg, events).chain) && Strict(Run(cfg, events).chain.refs)
  {
    RunKeepsChainInv(cfg, events);
    StrictUpTo(cfg, events, |events|);
    assert events[..|events|] == events;
  }

  /** What an event makes of the refs, given a walk from the block it offers that arrives or breaks off. */
  ghost predicate Follows(cfg: Config, s: ChainData, e: Event, branch: seq<BlockRef>, refs: seq<BlockRef>, n: nat)
    requires MovesHead(e)
  {
    var (s1, offered) := Ready(s, e);
    match offered
    case None => refs == s.refs && n == 0
    case Some(header) =>
      if s.refs == [] then refs == [RefOf(header)] && n == 1
      else if Extends(s.refs, header.number, header.parentHash) then refs == [RefOf(header)] + s.refs && n == 1
      else if header.number <= s.refs[0].height then refs == s.refs && n == 0
      else
        && (Arrives(cfg, s.refs, s1.headers, header, branch) ==> refs == branch + Kept(cfg, s.refs, header, |branch|) && n == |branch|)
        && (BreaksOff(cfg, s.refs, s1.headers, header, branch) ==> refs == s.refs && n == 0)
  }

  /** After any run, an event changes the refs, and counts new heads, exactly as the stored ancestors of its block say. */
  lemma RunFollows(cfg: Config, events: seq<Event>, e: Event, branch: seq<BlockRef>)
    requires Sane(cfg) && MovesHead(e)
    ensures var (s', n) := Handle(cfg, Run(cfg, events).chain, e); Follows(cfg, Run(cfg, events).chain, e, branch, s'.refs, n)
    ensures Step(cfg, Run(cfg, events), e).chain.refs == Handle(cfg, Run(cfg, events).chain, e).0.refs
  {
    var w := Run(cfg, events);
    var (s1, offered) := Ready(w.chain, e);
    var (chain, n) := Handle(cfg, w.chain, e);
    RunKeepsChainInv(cfg, events);
    ChainRuns.ReadyIsStored(w.chain, e);
    ChainRuns.SendConfirmedKeepsChain(cfg, w.(chain := chain), n, e.accepted, e.confirmOk);
    if offered.Some? && s1.refs != [] {
      IntendedFollows(cfg, s1.refs, s1.headers, offered.value, branch);
    }
  }

  /** Each new block offered in a reachable state switches branches at the highest common ancestor, if it switches. */
  lemma RunSwitchesAtCommonAncestor(cfg: Config, events: seq<Event>, e: Event)
    requires Sane(cfg) && NoneWraps(cfg, events) && MovesHead(e)
    ensures var refs := Run(cfg, events).chain.refs;
            var (chain, n) := Handle(cfg, Run(cfg, events).chain, e);
            refs != [] ==>
              && n <= |chain.refs| && IsSuffix(chain.refs[n..], refs)
              && (forall k :: 0 <= k < n ==> !OnChain(chain.refs[k].hash, refs))
  {
    var s := Run(cfg, events).chain;
    RunKeepsStrict(cfg, events);
    ChainRuns.ReadyIsStored(s, e);
    match Ready(s, e)
    case (s1, None) =>
    case (s1, Some(header)) =>
      if s.refs != [] {
        IntendedUpdate(cfg, s1.refs, s1.headers, header);
      }
  }

  /** So every block of the refs is found at its depth. */
  lemma RunServesDepth(cfg: Config, events: seq<Event>, depth: nat)
    requires Sane(cfg) && NoneWraps(cfg, events) && depth < |Run(cfg, events).chain.refs| && depth < TWO_63
    ensures var s := Run(cfg, events).chain;
            BlockAtDepth(s, depth).DepthBlock? && RefOf(BlockAtDepth(s, depth).header) == s.refs[depth]
  {
    var s := Run(cfg, events).chain;
    RunKeepsStrict(cfg, events);
    RunKeepsChainInv(cfg, events);
    StrictHeights(s.refs, depth);
    ChainRuns.DepthExact(s, depth);
  }

  /** And header queries are complete, in both directions. */
  lemma RunAnswersQueries(cfg: Config, events: seq<Event>, start: HeaderQueries.HashOrNumber, count: nat, skip: nat)
    requires Sane(cfg) && NoneWraps(cfg, events) && skip < TWO_63
    requires HeaderQueries.StartsOn(Run(cfg, events).chain, start) && |Run(cfg, events).chain.refs| <= TWO_63
    ensures HeaderQueries.AnswersForward(Run(cfg, events).chain, start, count, skip)
    ensures HeaderQueries.AnswersBackward(Run(cfg, events).chain, start, count, skip)
  {
    RunKeepsStrict(cfg, events);
    HeaderQueries.ForwardComplete(Run(cfg, events).chain, start, count, skip);
    HeaderQueries.BackwardComplete(Run(cfg, events).chain, start, count, skip);
  }
}
