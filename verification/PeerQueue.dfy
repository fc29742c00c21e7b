/** Releasing blocks to one peer: a block goes out when the peer has confirmed its parent. */
module PeerQueue {
  import opened GoInts
  import opened EthTypes

  const BLOCK_QUEUE_MAX_SIZE: nat := 50

  datatype PeerState = PeerState(confirmed: BlockRef, sentHead: BlockRef, queue: seq<Block>)

  datatype Event = NewHead(head: BlockRef) | NewBlock(block: Block)

  /** What one event does: the new state, and what became of the blocks that left the queue or never joined it. */
  datatype Effect = Effect(state: PeerState, sent: seq<Block>, pruned: seq<Block>, dropped: seq<Block>, ignored: seq<Block>)

  predicate IsChild(block: Block, head: BlockRef) {
    block.header.number == ToU64(head.height + 1) && block.header.parentHash == head.hash
  }

  // New head

  /** The scan of the queue: where to cut it (-1 for nowhere), and whether the block there is released. */
  function Scan(queue: seq<Block>, head: BlockRef, i: nat, breakpoint: int): (int, bool)
    requires i <= |queue|
    decreases |queue| - i
  {
    if i == |queue| then (breakpoint, false)
    else
      var number, next := queue[i].header.number, ToU64(head.height + 1);
      if IsChild(queue[i], head) then (i, true)
      else
        var breakpoint' := if number == next then i else breakpoint;
        if number > next then (if breakpoint' == -1 then i else breakpoint', false)
        else Scan(queue, head, i + 1, breakpoint')
  }

  lemma {:induction false} ScanInBounds(queue: seq<Block>, head: BlockRef, i: nat, breakpoint: int)
    requires i <= |queue| && -1 <= breakpoint < i
    ensures var (cut, release) := Scan(queue, head, i, breakpoint);
            -1 <= cut < |queue| && (release ==> cut >= 0 && IsChild(queue[cut], head))
    decreases |queue| - i
  {
    if i < |queue| && !IsChild(queue[i], head) && queue[i].header.number <= ToU64(head.height + 1) {
      ScanInBounds(queue, head, i + 1, if queue[i].header.number == ToU64(head.height + 1) then i else breakpoint);
    }
  }

  function CutAt(queue: seq<Block>, head: BlockRef): (r: nat)
    ensures r <= |queue|
    ensures Scan(queue, head, 0, -1).1 ==> r < |queue| && IsChild(queue[r], head)
  {
    ScanInBounds(queue, head, 0, -1);
    if Scan(queue, head, 0, -1).0 == -1 then |queue| else Scan(queue, head, 0, -1).0
  }

  function OnNewHead(s: PeerState, head: BlockRef): Effect {
    if head.height < s.confirmed.height then Effect(s, [], [], [], [])
    else
      var sentHead := if head.height >= s.sentHead.height then head else s.sentHead;
      var cut := CutAt(s.queue, head);
      if Scan(s.queue, head, 0, -1).1 then
        Effect(PeerState(head, RefOf(s.queue[cut].header), s.queue[cut + 1..]), [s.queue[cut]], s.queue[..cut], [], [])
      else Effect(PeerState(head, sentHead, s.queue[cut..]), [], s.queue[..cut], [], [])
  }

  // New block

  /** Where the insertion puts a block: before the last block that is higher, or at the end. */
  function InsertionPoint(queue: seq<Block>, number: U64): (r: nat)
    ensures r <= |queue|
    ensures r == |queue| <==> forall k :: 0 <= k < |queue| ==> queue[k].header.number <= number
    ensures r < |queue| ==> queue[r].header.number > number && forall k :: r < k < |queue| ==> queue[k].header.number <= number
  {
    if queue == [] then 0
    else
      var last := |queue| - 1;
      if queue[last].header.number > number then last
      else
        var p := InsertionPoint(queue[..last], number);
        if p == last then |queue| else p
  }

  function Insert(queue: seq<Block>, block: Block): seq<Block> {
    var p := InsertionPoint(queue, block.header.number);
    queue[..p] + [block] + queue[p..]
  }

  /** How many blocks the queue holds beyond its bound. */
  function Excess(queue: seq<Block>): nat {
    if |queue| > BLOCK_QUEUE_MAX_SIZE then |queue| - BLOCK_QUEUE_MAX_SIZE else 0
  }

  function OnNewBlock(s: PeerState, block: Block): Effect {
    var number := block.header.number;
    if number <= s.sentHead.height && s.sentHead.height != 0 then Effect(s, [], [], [], [block])
    else if IsChild(block, s.confirmed)
            || (s.confirmed.height == 0 && s.sentHead.height == 0 && block.header.parentHash == s.confirmed.hash) then
      Effect(s.(sentHead := RefOf(block.header)), [block], [], [], [])
    else
      var longer := Insert(s.queue, block);
      Effect(s.(queue := longer[Excess(longer)..]), [], [], longer[..Excess(longer)], [])
  }

  // Runs

  /** The state and, oldest first, every block received and its fate; sentOn is the confirmed head each sent block went out on. */
  datatype Log = Log(
    state: PeerState, received: seq<Block>, sent: seq<Block>, sentOn: seq<BlockRef>,
    pruned: seq<Block>, dropped: seq<Block>, ignored: seq<Block>)

  function Handle(s: PeerState, e: Event): Effect {
    match e
    case NewHead(head) => OnNewHead(s, head)
    case NewBlock(block) => OnNewBlock(s, block)
  }

  function Arrived(e: Event): seq<Block> {
    if e.NewBlock? then [e.block] else []
  }

  function Record(log: Log, e: Event): Log {
    var f := Handle(log.state, e);
    Log(f.state, log.received + Arrived(e), log.sent + f.sent,
        log.sentOn + seq(|f.sent|, _ => f.state.confirmed), log.pruned + f.pruned, log.dropped + f.dropped, log.ignored + f.ignored)
  }

  /** A peer after its handshake: the head it reported, at height 0. */
  function Start(head: Hash): Log {
    Log(PeerState(BlockRef(0, head), BlockRef(0, ZERO_HASH), []), [], [], [], [], [], [])
  }

  function Run(head: Hash, events: seq<Event>): Log {
    if events == [] then Start(head) else Record(Run(head, events[..|events| - 1]), events[|events| - 1])
  }

  // What each event must do

  /** One above a height, in 64 bits. */
  function OneAbove(height: U64): U64 {
    if height == TWO_64 - 1 then 0 else height + 1
  }

  /** At or below a sent height that is not 0. */
  predicate Stale(s: PeerState, block: Block) {
    s.sentHead.height != 0 && block.header.number <= s.sentHead.height
  }

  /** The child of the confirmed head: at the next height, or at whatever height while the peer has none. */
  predicate Expected(s: PeerState, block: Block) {
    && block.header.parentHash == s.confirmed.hash
    && (block.header.number == OneAbove(s.confirmed.height) || (s.confirmed.height == 0 && s.sentHead.height == 0))
  }

  /** Before the last higher block, or at the end if there is none. */
  ghost predicate IsPlace(queue: seq<Block>, p: nat, block: Block) {
    && p <= |queue| && (p < |queue| ==> queue[p].header.number > block.header.number)
    && forall k :: 0 <= k < |queue| && (k > p || p == |queue|) ==> queue[k].header.number <= block.header.number
  }

  /**
   * A stale block is ignored. Of the others the expected one goes out at once and becomes the sent head;
   * any other is put in the queue, of which only the oldest blocks beyond 50 are dropped.
   */
  ghost predicate BlockGoes(s: PeerState, block: Block, f: Effect) {
    f.pruned == []
    && if Stale(s, block) then f.state == s && f.ignored == [block] && f.sent == f.dropped == []
       else if Expected(s, block) then
         f.state == s.(sentHead := RefOf(block.header)) && f.sent == [block] && f.dropped == f.ignored == []
       else
         && f.sent == f.ignored == [] && f.state == s.(queue := f.state.queue)
         && |f.dropped| == (if |s.queue| < 50 then 0 else |s.queue| + 1 - 50)
         && exists p: nat :: IsPlace(s.queue, p, block) && f.dropped + f.state.queue == s.queue[..p] + [block] + s.queue[p..]
  }

  /** The scan of a queue, sorted or not, comes to a stop at a child of the head, or above the next height, or at the end. */
  ghost predicate StopsAt(queue: seq<Block>, head: BlockRef, j: nat) {
    && j <= |queue| && (forall k :: 0 <= k < j ==> !IsChild(queue[k], head) && queue[k].header.number <= OneAbove(head.height))
    && (j < |queue| ==> IsChild(queue[j], head) || queue[j].header.number > OneAbove(head.height))
  }

  /** The last block before the stop that is at the next height, or the stop itself. */
  ghost predicate IsCut(queue: seq<Block>, head: BlockRef, j: nat, cut: nat) {
    && cut <= j <= |queue| && (cut < j ==> queue[cut].header.number == OneAbove(head.height))
    && forall k :: 0 <= k < j && (k > cut || cut == j) ==> queue[k].header.number != OneAbove(head.height)
  }

  /**
   * A head below the confirmed one is ignored. Any other is confirmed; the child at which the scan stops
   * goes out and becomes the sent head, all before it being pruned. If it stops at no child, what is
   * before the cut is pruned, and the head counts as sent unless a higher one was.
   */
  ghost predicate HeadGoes(s: PeerState, head: BlockRef, f: Effect) {
    f.dropped == f.ignored == []
    && if head.height < s.confirmed.height then f.state == s && f.sent == f.pruned == []
       else
         f.state.confirmed == head && exists j: nat :: StopsAt(s.queue, head, j) && Splits(s, head, j, f)
  }

  /** What becomes of the queue and the sent head when the scan stops at a place. */
  ghost predicate Splits(s: PeerState, head: BlockRef, j: nat, f: Effect)
    requires j <= |s.queue|
  {
    if j < |s.queue| && IsChild(s.queue[j], head) then
      && f.sent == [s.queue[j]] && f.pruned == s.queue[..j] && f.state.queue == s.queue[j + 1..]
      && f.state.sentHead == RefOf(s.queue[j].header)
    else
      && f.sent == [] && f.state.sentHead == (if head.height < s.sentHead.height then s.sentHead else head)
      && IsCut(s.queue, head, j, |f.pruned|) && f.pruned + f.state.queue == s.queue
  }

  lemma NewBlockGoes(s: PeerState, block: Block)
    ensures BlockGoes(s, block, OnNewBlock(s, block))
  {
    var longer, p := Insert(s.queue, block), InsertionPoint(s.queue, block.header.number);
    assert IsPlace(s.queue, p, block);
    assert longer[..Excess(longer)] + longer[Excess(longer)..] == longer;
  }

  lemma {:induction false} ScanStops(queue: seq<Block>, head: BlockRef, i: nat, breakpoint: int, j: nat)
    requires StopsAt(queue, head, j) && i <= j && -1 <= breakpoint < i
    requires breakpoint >= 0 ==> queue[breakpoint].header.number == OneAbove(head.height)
    requires forall k :: breakpoint < k < i ==> queue[k].header.number != OneAbove(head.height)
    ensures var (cut, release) := Scan(queue, head, i, breakpoint);
            && (release <==> j < |queue| && IsChild(queue[j], head))
            && (release ==> cut == j)
            && (!release ==> -1 <= cut <= j && IsCut(queue, head, j, if cut == -1 then |queue| else cut))
            && (!release && cut == -1 ==> j == |queue|)
    decreases |queue| - i
  {
    if i < j {
      ScanStops(queue, head, i + 1, if queue[i].header.number == ToU64(head.height + 1) then i else breakpoint, j);
    }
  }

  /** The scan of every queue stops somewhere. */
  lemma {:induction false} ScanStopsSomewhere(queue: seq<Block>, head: BlockRef, i: nat) returns (j: nat)
    requires i <= |queue| && forall k :: 0 <= k < i ==> !IsChild(queue[k], head) && queue[k].header.number <= OneAbove(head.height)
    ensures StopsAt(queue, head, j)
    decreases |queue| - i
  {
    if i < |queue| && !IsChild(queue[i], head) && queue[i].header.number <= OneAbove(head.height) {
      j := ScanStopsSomewhere(queue, head, i + 1);
    } else {
      j := i;
    }
  }

  lemma HeadSplits(s: PeerState, head: BlockRef, j: nat)
    requires head.height >= s.confirmed.height && StopsAt(s.queue, head, j)
    ensures Splits(s, head, j, OnNewHead(s, head))
  {
    ScanStops(s.queue, head, 0, -1, j);
    var cut := CutAt(s.queue, head);
    CutJoins(s.queue, cut);
  }

  lemma CutJoins(queue: seq<Block>, cut: nat)
    requires cut <= |queue|
    ensures queue[..cut] + queue[cut..] == queue && |queue[..cut]| == cut
  {
  }

  lemma NewHeadGoes(s: PeerState, head: BlockRef)
    ensures HeadGoes(s, head, OnNewHead(s, head))
  {
    if head.height >= s.confirmed.height {
      var j := ScanStopsSomewhere(s.queue, head, 0);
      HeadSplits(s, head, j);
    }
  }

  ghost predicate Goes(s: PeerState, e: Event, f: Effect) {
    match e
    case NewHead(head) => HeadGoes(s, head, f)
    case NewBlock(block) => BlockGoes(s, block, f)
  }

  /** After any run, the next event does what it must, and all of that, and no more, is recorded. */
  lemma RunGoes(head: Hash, events: seq<Event>, e: Event)
    ensures var log, log' := Run(head, events), Run(head, events + [e]);
            exists f: Effect :: Goes(log.state, e, f) && log'.state == f.state && log'.sent == log.sent + f.sent
              && log'.pruned == log.pruned + f.pruned && log'.dropped == log.dropped + f.dropped && log'.ignored == log.ignored + f.ignored
  {
    var log := Run(head, events);
    assert (events + [e])[..|events|] == events;
    match e
    case NewHead(h) => NewHeadGoes(log.state, h);
    case NewBlock(b) => NewBlockGoes(log.state, b);
    assert Goes(log.state, e, Handle(log.state, e));
  }

  // What every run keeps

  ghost predicate Accounted(log: Log) {
    multiset(log.received)
    == multiset(log.state.queue) + multiset(log.sent) + multiset(log.pruned) + multiset(log.dropped) + multiset(log.ignored)
  }

  lemma CutConserves(queue: seq<Block>, cut: nat)
    requires cut <= |queue|
    ensures multiset(queue) == multiset(queue[..cut]) + multiset(queue[cut..])
  {
    assert queue == queue[..cut] + queue[cut..];
  }

  lemma InsertConserves(queue: seq<Block>, block: Block)
    ensures multiset(Insert(queue, block)) == multiset(queue) + multiset{block}
  {
    CutConserves(queue, InsertionPoint(queue, block.header.number));
  }

  lemma HeadConserves(s: PeerState, head: BlockRef)
    ensures var f := OnNewHead(s, head);
            multiset(s.queue) == multiset(f.state.queue) + multiset(f.sent) + multiset(f.pruned) && f.dropped == f.ignored == []
  {
    var cut := CutAt(s.queue, head);
    CutConserves(s.queue, cut);
    if Scan(s.queue, head, 0, -1).1 {
      assert s.queue[cut..] == [s.queue[cut]] + s.queue[cut + 1..];
    }
  }

  lemma BlockConserves(s: PeerState, block: Block)
    ensures var f := OnNewBlock(s, block);
            && multiset(s.queue) + multiset{block} == multiset(f.state.queue) + multiset(f.sent) + multiset(f.dropped) + multiset(f.ignored)
            && f.pruned == []
  {
    var f := OnNewBlock(s, block);
    if f.sent == [] && f.ignored == [] {
      var longer := Insert(s.queue, block);
      InsertConserves(s.queue, block);
      CutConserves(longer, Excess(longer));
      assert f.state.queue == longer[Excess(longer)..] && f.dropped == longer[..Excess(longer)];
    } else {
      assert f.state.queue == s.queue && f.dropped == [];
    }
  }

  lemma Regroup<T>(r: multiset<T>, q: multiset<T>, s: multiset<T>, p: multiset<T>, d: multiset<T>, i: multiset<T>,
                   a: multiset<T>, q': multiset<T>, s': multiset<T>, p': multiset<T>, d': multiset<T>, i': multiset<T>)
    requires r == q + s + p + d + i && q + a == q' + s' + p' + d' + i'
    ensures r + a == q' + (s + s') + (p + p') + (d + d') + (i + i')
  {
    assert r + a == (q + a) + s + p + d + i;
  }

  lemma RecordAccounts(log: Log, e: Event)
    requires Accounted(log)
    ensures Accounted(Record(log, e))
  {
    var f := Handle(log.state, e);
    HandleConserves(log.state, e);
    Regroup(multiset(log.received), multiset(log.state.queue), multiset(log.sent), multiset(log.pruned), multiset(log.dropped),
            multiset(log.ignored), multiset(Arrived(e)), multiset(f.state.queue), multiset(f.sent), multiset(f.pruned),
            multiset(f.dropped), multiset(f.ignored));
  }

  lemma HandleConserves(s: PeerState, e: Event)
    ensures var f := Handle(s, e);
            multiset(s.queue) + multiset(Arrived(e))
            == multiset(f.state.queue) + multiset(f.sent) + multiset(f.pruned) + multiset(f.dropped) + multiset(f.ignored)
  {
    match e
    case NewHead(h) => HeadConserves(s, h);
    case NewBlock(b) => BlockConserves(s, b);
  }

  /** In every run every block received is still queued, sent, pruned, dropped for space or ignored as stale: once. */
  lemma {:induction false} EveryBlockAccounted(head: Hash, events: seq<Event>)
    ensures Accounted(Run(head, events))
  {
    if events != [] {
      EveryBlockAccounted(head, events[..|events| - 1]);
      RecordAccounts(Run(head, events[..|events| - 1]), events[|events| - 1]);
    }
  }

  /** Each sent block is a child, by hash, of the head confirmed when it went out; one higher, except on the initial head. */
  ghost predicate SentOnParent(log: Log) {
    && |log.sent| == |log.sentOn|
    && forall i :: 0 <= i < |log.sent| ==>
         && log.sent[i].header.parentHash == log.sentOn[i].hash
         && (log.sent[i].header.number == ToU64(log.sentOn[i].height + 1) || log.sentOn[i].height == 0)
  }

  /** What one event sends, at most one block, is a child of the head that is confirmed after it. */
  lemma HandleSendsChild(s: PeerState, e: Event)
    ensures var f := Handle(s, e);
            && |f.sent| <= 1
            && (f.sent != [] ==>
                  && f.sent[0].header.parentHash == f.state.confirmed.hash
                  && (f.sent[0].header.number == ToU64(f.state.confirmed.height + 1) || f.state.confirmed.height == 0))
  {
  }

  lemma HandleBoundsQueue(s: PeerState, e: Event)
    requires |s.queue| <= BLOCK_QUEUE_MAX_SIZE
    ensures |Handle(s, e).state.queue| <= BLOCK_QUEUE_MAX_SIZE
  {
  }

  lemma RecordKeepsQueue(log: Log, e: Event)
    requires SentOnParent(log) && |log.state.queue| <= BLOCK_QUEUE_MAX_SIZE
    ensures SentOnParent(Record(log, e)) && |Record(log, e).state.queue| <= BLOCK_QUEUE_MAX_SIZE
  {
    HandleSendsChild(log.state, e);
    HandleBoundsQueue(log.state, e);
    var f, next := Handle(log.state, e), Record(log, e);
    assert f.sent == [] || f.sent == [f.sent[0]];
  }

  /** In every run each sent block is a child of the confirmed head, and the queue holds at most 50 blocks. */
  lemma {:induction false} RunKeepsQueue(head: Hash, events: seq<Event>)
    ensures SentOnParent(Run(head, events))
    ensures |Run(head, events).state.queue| <= BLOCK_QUEUE_MAX_SIZE
  {
    if events != [] {
      RunKeepsQueue(head, events[..|events| - 1]);
      RecordKeepsQueue(Run(head, events[..|events| - 1]), events[|events| - 1]);
    }
  }

  /** Some queued block is a child of the head, and all blocks before it are numbered 0. */
  ghost predicate ChildBehindZeros(queue: seq<Block>, head: BlockRef) {
    exists k :: 0 <= k < |queue| && IsChild(queue[k], head) && forall j :: 0 <= j < k ==> queue[j].header.number == 0
  }

  lemma {:induction false} ScanAtTop(queue: seq<Block>, head: BlockRef, i: nat, breakpoint: int)
    requires head.height == TWO_64 - 1 && i <= |queue|
    requires forall j :: 0 <= j < i ==> queue[j].header.number == 0 && !IsChild(queue[j], head)
    ensures Scan(queue, head, i, breakpoint).1 <==> ChildBehindZeros(queue, head)
    decreases |queue| - i
  {
    if i < |queue| && !IsChild(queue[i], head) && queue[i].header.number == 0 {
      ScanAtTop(queue, head, i + 1, i);
    }
  }

  predicate Leads(s: PeerState) {
    s.sentHead.height >= s.confirmed.height
  }

  /** A new head at height 2^64 - 1 that finds a child, numbered 0, in the queue behind nothing but blocks 0. */
  ghost predicate TakesLead(s: PeerState, e: Event) {
    e.NewHead? && e.head.height == TWO_64 - 1 && ChildBehindZeros(s.queue, e.head)
  }

  /** The last sent height stays at or above the confirmed height in every case but that one. */
  lemma SentHeadLeadsIff(s: PeerState, e: Event)
    requires Leads(s)
    ensures Leads(Handle(s, e).state) <==> !TakesLead(s, e)
  {
    if e.NewHead? && e.head.height == TWO_64 - 1 {
      ScanAtTop(s.queue, e.head, 0, -1);
    }
  }

  /** The case occurs: a block 0 is queued, and a head at height 2^64 - 1 with its parent's hash releases it. */
  lemma LeadIsLost(head: Hash, block: Block)
    requires block.header.number == 0 && block.header.parentHash != head
    ensures var s := Run(head, [NewBlock(block), NewHead(BlockRef(TWO_64 - 1, block.header.parentHash))]).state;
            s.sentHead.height == 0 < s.confirmed.height
  {
    var queued, top := NewBlock(block), NewHead(BlockRef(TWO_64 - 1, block.header.parentHash));
    assert [queued, top][..1] == [queued] && [queued][..0] == [];
    assert Run(head, [queued]).state.queue == [block];
    assert IsChild([block][0], top.head);
    SentHeadLeadsIff(Run(head, [queued]).state, top);
  }

  /** The state of a run before its k-th event. */
  function StateAt(head: Hash, events: seq<Event>, k: nat): PeerState
    requires k <= |events|
  {
    Run(head, events[..k]).state
  }

  lemma LeadsNextIff(head: Hash, events: seq<Event>, k: nat)
    requires k < |events| && Leads(StateAt(head, events, k))
    ensures Leads(StateAt(head, events, k + 1)) <==> !TakesLead(StateAt(head, events, k), events[k])
  {
    assert events[..k + 1][..k] == events[..k];
    SentHeadLeadsIff(StateAt(head, events, k), events[k]);
  }

  lemma {:induction false} LeadsUpTo(head: Hash, events: seq<Event>, n: nat)
    requires n <= |events| && forall k :: 0 <= k < n ==> !TakesLead(StateAt(head, events, k), events[k])
    ensures Leads(StateAt(head, events, n))
  {
    if n > 0 {
      LeadsUpTo(head, events, n - 1);
      LeadsNextIff(head, events, n - 1);
    }
  }

  /** Over a whole run the sent height is always at or above the confirmed height exactly when no event takes the lead. */
  lemma RunLeadsIff(head: Hash, events: seq<Event>)
    ensures (forall k :: 0 <= k <= |events| ==> Leads(StateAt(head, events, k)))
            <==> (forall k :: 0 <= k < |events| ==> !TakesLead(StateAt(head, events, k), events[k]))
  {
    if forall k :: 0 <= k <= |events| ==> Leads(StateAt(head, events, k)) {
      forall k | 0 <= k < |events| ensures !TakesLead(StateAt(head, events, k), events[k]) {
        LeadsNextIff(head, events, k);
      }
    }
    if forall k :: 0 <= k < |events| ==> !TakesLead(StateAt(head, events, k), events[k]) {
      forall k | 0 <= k <= |events| ensures Leads(StateAt(head, events, k)) {
        LeadsUpTo(head, events, k);
      }
    }
  }

  /** In particular when every confirmed head is below height 2^64 - 1. */
  lemma RunKeepsLead(head: Hash, events: seq<Event>)
    requires forall i :: 0 <= i < |events| && events[i].NewHead? ==> events[i].head.height < TWO_64 - 1
    ensures Leads(Run(head, events).state)
  {
    assert events[..|events|] == events;
    LeadsUpTo(head, events, |events|);
  }

  // The initial block

  predicate OutOfTurn(log: Log, i: nat)
    requires i < |log.sent| && i < |log.sentOn|
  {
    log.sent[i].header.number != ToU64(log.sentOn[i].height + 1)
  }

  /** Only the first block out of turn can have a number above 0, and none has before the peer has any height. */
  ghost predicate OneInitialBlock(log: Log) {
    && |log.sent| == |log.sentOn|
    && (forall i, j :: 0 <= i < j < |log.sent| && OutOfTurn(log, i) && OutOfTurn(log, j) ==> log.sent[i].header.number == 0)
    && (Fresh(log.state) ==> forall i :: 0 <= i < |log.sent| && OutOfTurn(log, i) ==> log.sent[i].header.number == 0)
  }

  predicate Fresh(s: PeerState) {
    s.confirmed.height == 0 && s.sentHead.height == 0
  }

  lemma HandleInitialBlock(s: PeerState, e: Event)
    ensures var f := Handle(s, e);
            && |f.sent| <= 1
            && (f.sent != [] && f.sent[0].header.number != ToU64(f.state.confirmed.height + 1) ==>
                  Fresh(s) && f.state.sentHead.height == f.sent[0].header.number)
            && (Fresh(f.state) ==> Fresh(s))
  {
  }

  lemma RecordKeepsInitialBlock(log: Log, e: Event)
    requires OneInitialBlock(log)
    ensures OneInitialBlock(Record(log, e))
  {
    var f, next := Handle(log.state, e), Record(log, e);
    HandleInitialBlock(log.state, e);
    assert f.sent == [] || f.sent == [f.sent[0]];
    forall i | 0 <= i < |log.sent| ensures OutOfTurn(next, i) <==> OutOfTurn(log, i) {
    }
  }

  /** In every run the rule "one above the confirmed head" is broken by at most one block with a number above 0. */
  lemma {:induction false} RunKeepsInitialBlock(head: Hash, events: seq<Event>)
    ensures OneInitialBlock(Run(head, events))
  {
    if events != [] {
      RunKeepsInitialBlock(head, events[..|events| - 1]);
      RecordKeepsInitialBlock(Run(head, events[..|events| - 1]), events[|events| - 1]);
    }
  }

  // Sorted queues

  ghost predicate Sorted(queue: seq<Block>) {
    forall i, j :: 0 <= i < j < |queue| ==> queue[i].header.number <= queue[j].header.number
  }

  /** Insertion keeps a sorted queue sorted exactly when at most one queued block is higher than the new one. */
  lemma InsertKeepsSortedIff(queue: seq<Block>, block: Block)
    requires Sorted(queue)
    ensures Sorted(Insert(queue, block)) <==> |queue| < 2 || queue[|queue| - 2].header.number <= block.header.number
  {
    var p, longer, n := InsertionPoint(queue, block.header.number), Insert(queue, block), |queue|;
    if n >= 2 && queue[n - 2].header.number > block.header.number {
      assert queue[n - 1].header.number > block.header.number && p == n - 1;
      assert longer[n - 2] == queue[n - 2] && longer[n - 1] == block;
    } else {
      forall i, j | 0 <= i < j < |longer| ensures longer[i].header.number <= longer[j].header.number {
        var i' := if i < p then i else if i == p then p else i - 1;
        var j' := if j < p then j else if j == p then p else j - 1;
        assert p >= n - 1;
      }
    }
  }

  /**
   * On a sorted queue the scan finds the first child of the head if there is one, and otherwise cuts
   * away everything below the next height.
   */
  lemma {:induction false} ScanSorted(queue: seq<Block>, head: BlockRef, i: nat, breakpoint: int)
    requires Sorted(queue) && i <= |queue| && -1 <= breakpoint < i
    requires forall k :: 0 <= k < i ==> !IsChild(queue[k], head) && queue[k].header.number <= ToU64(head.height + 1)
    requires if breakpoint == -1 then forall k :: 0 <= k < i ==> queue[k].header.number < ToU64(head.height + 1)
             else queue[breakpoint].header.number == ToU64(head.height + 1)
    ensures var (cut, release) := Scan(queue, head, i, breakpoint);
            && (release <==> exists k :: 0 <= k < |queue| && IsChild(queue[k], head))
            && (release ==> 0 <= cut < |queue| && forall k :: 0 <= k < cut ==> !IsChild(queue[k], head))
            && (cut == -1 ==> forall k :: 0 <= k < |queue| ==> queue[k].header.number < ToU64(head.height + 1))
            && (cut != -1 ==> 0 <= cut < |queue| && queue[cut].header.number >= ToU64(head.height + 1))
    decreases |queue| - i
  {
    if i < |queue| && !IsChild(queue[i], head) {
      var number, next := queue[i].header.number, ToU64(head.height + 1);
      if number <= next {
        ScanSorted(queue, head, i + 1, if number == next then i else breakpoint);
      } else {
        forall k | i <= k < |queue| ensures !IsChild(queue[k], head) {
        }
      }
    }
  }

  lemma NextIsOneAbove(height: U64)
    ensures ToU64(height + 1) == OneAbove(height)
  {
  }

  lemma DropSorted(queue: seq<Block>, n: nat)
    requires Sorted(queue) && n <= |queue|
    ensures Sorted(queue[n..])
    ensures forall k :: 0 <= k < |queue[n..]| ==> queue[n..][k] == queue[n + k]
    ensures forall k :: n <= k < |queue| && n > 0 ==> queue[k].header.number >= queue[n - 1].header.number
  {
  }

  /** Where a sorted queue is cut. */
  lemma CutOnSorted(queue: seq<Block>, head: BlockRef)
    requires Sorted(queue)
    ensures var cut, release := CutAt(queue, head), Scan(queue, head, 0, -1).1;
            && (release <==> exists k :: 0 <= k < |queue| && IsChild(queue[k], head))
            && (forall k :: 0 <= k < cut ==> !IsChild(queue[k], head))
            && (forall k :: cut <= k < |queue| ==> queue[k].header.number >= OneAbove(head.height))
  {
    NextIsOneAbove(head.height);
    ScanSorted(queue, head, 0, -1);
    ScanBeforeChild(queue, head, 0, -1);
  }

  lemma HeadEffect(s: PeerState, head: BlockRef)
    requires s.confirmed.height <= head.height
    ensures var f, cut, release := OnNewHead(s, head), CutAt(s.queue, head), Scan(s.queue, head, 0, -1).1;
            && f.pruned == s.queue[..cut] && |f.pruned| == cut
            && f.state.queue == s.queue[if release then cut + 1 else cut..] && f.sent == if release then [s.queue[cut]] else []
  {
  }

  lemma LeavesNoneBelow(s: PeerState, head: BlockRef)
    requires Sorted(s.queue) && s.confirmed.height <= head.height
    ensures var queue := OnNewHead(s, head).state.queue;
            Sorted(queue) && forall k :: 0 <= k < |queue| ==> queue[k].header.number >= OneAbove(head.height)
  {
    var cut, release := CutAt(s.queue, head), Scan(s.queue, head, 0, -1).1;
    CutOnSorted(s.queue, head);
    DropSorted(s.queue, if release then cut + 1 else cut);
    HeadEffect(s, head);
  }

  lemma ReleasesFirstChild(s: PeerState, head: BlockRef)
    requires Sorted(s.queue) && s.confirmed.height <= head.height
    ensures var f := OnNewHead(s, head);
            && |f.pruned| <= |s.queue|
            && (f.sent != [] <==> exists k :: 0 <= k < |s.queue| && IsChild(s.queue[k], head))
            && (f.sent != [] ==> |f.pruned| < |s.queue| && f.sent == [s.queue[|f.pruned|]] && IsChild(f.sent[0], head))
            && (forall k :: 0 <= k < |f.pruned| ==> f.pruned[k] == s.queue[k] && !IsChild(f.pruned[k], head))
  {
    CutOnSorted(s.queue, head);
    HeadEffect(s, head);
  }

  /**
   * A new head on a sorted queue releases the first child of the head, whenever the queue holds
   * one, and leaves no block below the next height, which is none at or below the head unless the
   * head is at 2^64 - 1 and the next height 0; the queue stays sorted.
   */
  lemma NewHeadOnSorted(s: PeerState, head: BlockRef)
    requires Sorted(s.queue) && s.confirmed.height <= head.height
    ensures var f := OnNewHead(s, head);
            && Sorted(f.state.queue)
            && (forall k :: 0 <= k < |f.state.queue| ==> f.state.queue[k].header.number >= ToU64(head.height + 1))
            && (head.height < TWO_64 - 1 ==> forall k :: 0 <= k < |f.state.queue| ==> f.state.queue[k].header.number > head.height)
            && (f.sent != [] <==> exists k :: 0 <= k < |s.queue| && IsChild(s.queue[k], head))
            && (f.sent != [] ==> f.sent == [s.queue[|f.pruned|]] && IsChild(f.sent[0], head))
            && (forall k :: 0 <= k < |f.pruned| ==> f.pruned[k] == s.queue[k] && !IsChild(f.pruned[k], head))
  {
    LeavesNoneBelow(s, head);
    ReleasesFirstChild(s, head);
    NextIsOneAbove(head.height);
  }

  /** At height 2^64 - 1 the next height is 0, and blocks stay behind unless the only child is the last block. */
  lemma NewHeadAtTop(s: PeerState, head: BlockRef)
    requires Sorted(s.queue) && head.height == TWO_64 - 1
    ensures var f := OnNewHead(s, head);
            && Sorted(f.state.queue)
            && (f.state.queue == [] <==> s.queue == [] || OnlyLastIsChild(s.queue, head))
  {
    if s.queue != [] {
      ScanStopsAtTop(s.queue, head, 0, -1);
    }
  }

  ghost predicate OnlyLastIsChild(queue: seq<Block>, head: BlockRef) {
    queue != [] && IsChild(queue[|queue| - 1], head) && forall k :: 0 <= k < |queue| - 1 ==> !IsChild(queue[k], head)
  }

  lemma {:induction false} ScanStopsAtTop(queue: seq<Block>, head: BlockRef, i: nat, breakpoint: int)
    requires Sorted(queue) && head.height == TWO_64 - 1 && i <= |queue| && queue != []
    requires forall j :: 0 <= j < i ==> queue[j].header.number == 0 && !IsChild(queue[j], head)
    requires breakpoint == i - 1
    ensures var (cut, release) := Scan(queue, head, i, breakpoint);
            && 0 <= cut < |queue|
            && (release && cut == |queue| - 1 <==> OnlyLastIsChild(queue, head))
    decreases |queue| - i
  {
    if i < |queue| && !IsChild(queue[i], head) && queue[i].header.number == 0 {
      ScanStopsAtTop(queue, head, i + 1, i);
    }
  }

  lemma {:induction false} ScanBeforeChild(queue: seq<Block>, head: BlockRef, i: nat, breakpoint: int)
    requires i <= |queue| && -1 <= breakpoint < i && forall k :: 0 <= k < i ==> !IsChild(queue[k], head)
    requires Sorted(queue)
    ensures forall k :: 0 <= k < Scan(queue, head, i, breakpoint).0 && k < |queue| ==> !IsChild(queue[k], head)
    ensures Scan(queue, head, i, breakpoint).0 == -1 ==> forall k :: 0 <= k < |queue| ==> !IsChild(queue[k], head)
    decreases |queue| - i
  {
    if i < |queue| && !IsChild(queue[i], head) {
      var number, next := queue[i].header.number, ToU64(head.height + 1);
      if number <= next {
        ScanBeforeChild(queue, head, i + 1, if number == next then i else breakpoint);
      }
    }
  }

  // The peer object

  class Peer {
    var confirmedHead: BlockRef
    var sentHead: BlockRef
    var queuedBlocks: seq<Block>
    // blocks sent to the peer, oldest first
    var outbox: seq<Block>

    function State(): PeerState
      reads this
    {
      PeerState(confirmedHead, sentHead, queuedBlocks)
    }

    constructor (head: Hash)
      ensures State() == Start(head).state && outbox == []
    {
      confirmedHead, sentHead, queuedBlocks, outbox := BlockRef(0, head), BlockRef(0, ZERO_HASH), [], [];
    }

    method HandleNewHead(newHead: BlockRef)
      modifies this
      ensures State() == OnNewHead(old(State()), newHead).state
      ensures outbox == old(outbox) + OnNewHead(old(State()), newHead).sent
    {
      if newHead.height < confirmedHead.height {
        return;
      }
      confirmedHead := newHead;
      if newHead.height >= sentHead.height {
        sentHead := newHead;
      }

      var breakpoint, releaseBlock := -1, false;
      var i := 0;
      while i < |queuedBlocks|
        invariant i <= |queuedBlocks| && !releaseBlock && -1 <= breakpoint < i + 1
        invariant Scan(queuedBlocks, newHead, i, breakpoint) == Scan(queuedBlocks, newHead, 0, -1)
      {
        var header := queuedBlocks[i].header;
        var nextHeight := header.number == ToU64(confirmedHead.height + 1);
        var isNextBlock := nextHeight && header.parentHash == confirmedHead.hash;
        var exceedsHeight := header.number > ToU64(confirmedHead.height + 1);
        if isNextBlock {
          breakpoint, releaseBlock := i, true;
          break;
        }
        if nextHeight {
          breakpoint := i;
        }
        if exceedsHeight {
          if breakpoint == -1 {
            breakpoint := i;
          }
          break;
        }
        i := i + 1;
      }
      assert (breakpoint, releaseBlock) == Scan(queuedBlocks, newHead, 0, -1);
      if breakpoint == -1 {
        breakpoint := |queuedBlocks|;
      }
      assert breakpoint == CutAt(queuedBlocks, newHead);
      queuedBlocks := queuedBlocks[breakpoint..];
      if releaseBlock {
        SendTopBlock();
      }
    }

    method SendTopBlock()
      requires queuedBlocks != []
      modifies this`queuedBlocks, this`sentHead, this`outbox
      ensures queuedBlocks == old(queuedBlocks)[1..] && sentHead == RefOf(old(queuedBlocks)[0].header)
      ensures outbox == old(outbox) + [old(queuedBlocks)[0]]
    {
      var block := queuedBlocks[0];
      queuedBlocks := queuedBlocks[1..];
      sentHead := RefOf(block.header);
      outbox := outbox + [block];
    }

    method HandleNewBlock(newBlock: Block)
      modifies this
      ensures State() == OnNewBlock(old(State()), newBlock).state
      ensures outbox == old(outbox) + OnNewBlock(old(State()), newBlock).sent
    {
      var number := newBlock.header.number;
      if number <= sentHead.height && sentHead.height != 0 {
        return;
      }
      var nextBlock := IsChild(newBlock, confirmedHead);
      var initialBlock := confirmedHead.height == 0 && sentHead.height == 0 && newBlock.header.parentHash == confirmedHead.hash;
      if nextBlock || initialBlock {
        outbox := outbox + [newBlock];
        sentHead := RefOf(newBlock.header);
      } else {
        QueueBlock(newBlock);
      }
    }

    method QueueBlock(newBlock: Block)
      modifies this`queuedBlocks
      ensures var longer := Insert(old(queuedBlocks), newBlock); queuedBlocks == longer[Excess(longer)..]
    {
      InsertBlock(newBlock);
      if |queuedBlocks| > BLOCK_QUEUE_MAX_SIZE {
        queuedBlocks := queuedBlocks[|queuedBlocks| - BLOCK_QUEUE_MAX_SIZE..];
      }
    }

    /** The loop without a break: the insertion point is the last higher block met. The tail then shifts by one. */
    method InsertBlock(newBlock: Block)
      modifies this`queuedBlocks
      ensures queuedBlocks == Insert(old(queuedBlocks), newBlock)
    {
      var insertionPoint := |queuedBlocks|;
      for i := 0 to |queuedBlocks|
        invariant insertionPoint == if InsertionPoint(queuedBlocks[..i], newBlock.header.number) == i then |queuedBlocks|
                                    else InsertionPoint(queuedBlocks[..i], newBlock.header.number)
      {
        assert queuedBlocks[..i + 1][..i] == queuedBlocks[..i];
        if queuedBlocks[i].header.number > newBlock.header.number {
          insertionPoint := i;
        }
      }
      assert queuedBlocks[..|queuedBlocks|] == queuedBlocks;
      PutAt(insertionPoint, newBlock);
    }

    /** The append, the copy that moves the tail up by one, and the store. */
    method PutAt(point: nat, newBlock: Block)
      requires point <= |queuedBlocks|
      modifies this`queuedBlocks
      ensures queuedBlocks == old(queuedBlocks)[..point] + [newBlock] + old(queuedBlocks)[point..]
    {
      queuedBlocks := queuedBlocks + [newBlock];
      var j := |queuedBlocks| - 1;
      while j > point
        invariant point <= j < |queuedBlocks| == |old(queuedBlocks)| + 1
        invariant forall k :: 0 <= k < j ==> queuedBlocks[k] == old(queuedBlocks)[k]
        invariant forall k :: j < k < |queuedBlocks| ==> queuedBlocks[k] == old(queuedBlocks)[k - 1]
      {
        queuedBlocks := queuedBlocks[j := queuedBlocks[j - 1]];
        j := j - 1;
      }
      queuedBlocks := queuedBlocks[point := newBlock];
    }
  }
}
