/** Answering header queries from the canonical refs. */
module HeaderQueries {
  import opened GoInts
  import opened EthTypes
  import opened ForkChoice
  import opened ChainStore

  /** The origin of a query: a number when it is positive, a hash otherwise. */
  datatype HashOrNumber = HashOrNumber(hash: Hash, number: U64)
  datatype QueryError = ErrInvalidRequest | ErrFutureHeaders | ErrAncientHeaders | ErrUnknownHash | ErrNoHeader
  datatype QueryResult = Headers(headers: seq<Header>) | Failed(error: QueryError)
  datatype Origin = At(height: U64, headers: seq<Header>) | NoOrigin(error: QueryError)

  function HeadHeight(refs: seq<BlockRef>): U64 {
    if refs == [] then 0 else refs[0].height
  }

  function FindOrigin(s: ChainData, start: HashOrNumber): Origin {
    if start.number > 0 then
      if start.number > HeadHeight(s.refs) then NoOrigin(ErrFutureHeaders)
      else if s.refs != [] && start.number < s.refs[|s.refs| - 1].height then NoOrigin(ErrAncientHeaders)
      else
        match HeaderAtHeight(s.refs, s.headers, start.number)
        case NoHeader => NoOrigin(ErrNoHeader)
        case Beyond => At(start.number, [])
        case Found(header) => At(start.number, [header])
    else if start.hash != ZERO_HASH then
      if start.hash !in s.metadata then NoOrigin(ErrUnknownHash)
      else
        var height := s.metadata[start.hash].height;
        match FindHeader(s.headers, height, start.hash)
        case None => NoOrigin(ErrNoHeader)
        case Some(header) => At(height, [header])
    else NoOrigin(ErrInvalidRequest)
  }

  function Collect(refs: seq<BlockRef>, store: HeaderStore, count: nat, increment: int, height: int,
          found: seq<Header>): QueryResult
    decreases count - |found|
  {
    if |found| >= count then Headers(found)
    else
      match HeaderAtHeight(refs, store, ToU64(height))
      case NoHeader => Failed(ErrNoHeader)
      case Beyond => Headers(found)
      case Found(header) => Collect(refs, store, count, increment, ToInt64(height + increment), found + [header])
  }

  function Increment(skip: int, reverse: bool): int {
    ToInt64(if reverse then -(skip + 1) else skip + 1)
  }

  /** The rest of a query whose origin is at this height. */
  function Continue(refs: seq<BlockRef>, store: HeaderStore, count: nat, increment: int, height: U64,
          found: seq<Header>): QueryResult {
    if count == 1 then Headers(found) else Collect(refs, store, count, increment, ToInt64(height + increment), found)
  }

  function GetHeaders(s: ChainData, start: HashOrNumber, count: nat, skip: int, reverse: bool): QueryResult {
    match FindOrigin(s, start)
    case NoOrigin(error) => Failed(error)
    case At(height, found) => Continue(s.refs, s.headers, count, Increment(skip, reverse), height, found)
  }

  // Single lookups

  lemma IndexValue(head: U64, height: U64)
    ensures IndexOf(head, height)
            == if head - height >= TWO_63 then head - height - TWO_64
               else if head - height < -TWO_63 then head - height + TWO_64
               else head - height
  {
  }

  /** As many positions below the head as the header's number is heights below stands its ref. */
  predicate Canonical(refs: seq<BlockRef>, header: Header) {
    refs != [] && var i := Below(refs[0].height, header.number); i < |refs| && refs[i].hash == HashOf(header)
  }

  lemma LookupIsCanonical(refs: seq<BlockRef>, headers: HeaderStore, height: U64)
    requires Filed(headers)
    ensures var r := HeaderAtHeight(refs, headers, height);
            r.Found? ==> r.header.number == height && Canonical(refs, r.header) && OnChain(HashOf(r.header), refs)
  {
    if refs != [] {
      IndexValue(refs[0].height, height);
    }
  }

  /** Within the refs, a lookup by height succeeds exactly when the ref that far below the head has that height. */
  lemma LookupExact(refs: seq<BlockRef>, headers: HeaderStore, height: U64)
    requires GoodRefs(headers, refs) && Filed(headers) && refs != []
    requires Below(refs[0].height, height) < |refs| && Below(refs[0].height, height) < TWO_63
    ensures var ref := refs[Below(refs[0].height, height)];
            HeaderAtHeight(refs, headers, height) == if ref.height == height then Found(ref.hash.header) else NoHeader
  {
    IndexValue(refs[0].height, height);
    assert GoodRef(headers, refs[Below(refs[0].height, height)]);
  }

  /** Off the refs the index alone decides. */
  lemma LookupOutside(refs: seq<BlockRef>, headers: HeaderStore, height: U64)
    requires refs != [] && !(0 <= IndexOf(refs[0].height, height) < |refs|)
    ensures HeaderAtHeight(refs, headers, height) == if IndexOf(refs[0].height, height) < 0 then Beyond else NoHeader
  {
  }

  /**
   * On a strict chain every height from the tail to the head is found. Elsewhere the index decides, a
   * 64-bit difference read as an int: outside its half of the range, low heights pass for high ones.
   */
  lemma LookupStrict(refs: seq<BlockRef>, headers: HeaderStore, height: U64)
    requires GoodRefs(headers, refs) && Filed(headers) && Strict(refs) && 0 < |refs| <= TWO_63
    ensures var head, tail := refs[0].height, refs[|refs| - 1].height;
            var r := HeaderAtHeight(refs, headers, height);
            && (tail <= height <= head ==> head - height < |refs| && r == Found(refs[head - height].hash.header))
            && (height < tail ==> r == if head - height < TWO_63 then NoHeader else Beyond)
            && (head < height <= head + TWO_63 ==> r == Beyond)
            && (head + TWO_63 < height ==> r == NoHeader)
  {
    var head := refs[0].height;
    StrictHeights(refs, |refs| - 1);
    IndexValue(head, height);
    if refs[|refs| - 1].height <= height <= head {
      StrictHeights(refs, head - height);
      LookupExact(refs, headers, height);
    } else {
      LookupOutside(refs, headers, height);
    }
  }

  /**
   * As coded, a direct extension makes the block it extends unreachable by height; as intended,
   * it stays reachable.
   */
  lemma DirectExtensionHidesParent(cfg: Config, refs: seq<BlockRef>, headers: HeaderStore, header: Header)
    requires Sane(cfg) && cfg.minValidChain > 1 && GoodRefs(headers, refs) && Filed(headers) && refs != []
    requires Stored(headers, header) && header.number == refs[0].height + 1 && header.parentHash == refs[0].hash
    ensures HeaderAtHeight(Update(cfg, refs, headers, header.number, HashOf(header), header.parentHash).0, headers, refs[0].height) == NoHeader
    ensures HeaderAtHeight(UpdateIntended(cfg, refs, headers, header.number, HashOf(header), header.parentHash).0, headers, refs[0].height)
            == Found(refs[0].hash.header)
  {
    DirectExtension(cfg, refs, headers, header);
    assert GoodRef(headers, refs[0]);
  }

  // What a query returns

  /** From the origin on, each header one increment (modulo 2^64) from the one before; all but the first are canonical. */
  ghost predicate Steps(r: seq<Header>, refs: seq<BlockRef>, origin: int, increment: int) {
    && r != [] && r[0].number == origin
    && (forall j :: 1 <= j < |r| ==> Canonical(refs, r[j]))
    && (forall j :: 1 <= j < |r| ==> r[j].number == ToU64(r[j - 1].number + increment))
  }

  lemma StepsGrow(r: seq<Header>, refs: seq<BlockRef>, origin: int, increment: int, next: Header)
    requires Steps(r, refs, origin, increment)
    requires next.number == ToU64(r[|r| - 1].number + increment) && Canonical(refs, next)
    ensures Steps(r + [next], refs, origin, increment)
  {
  }

  lemma WrapStep(height: int, increment: int)
    ensures ToU64(ToInt64(height + increment)) == ToU64(ToU64(height) + increment)
  {
  }

  /** Every header collected is canonical, one increment (modulo 2^64) from the one before. */
  lemma {:induction false} CollectSound(refs: seq<BlockRef>, store: HeaderStore, count: nat, increment: int,
          height: int, found: seq<Header>, origin: int)
    requires Filed(store) && Steps(found, refs, origin, increment) && ToU64(height) == ToU64(found[|found| - 1].number + increment)
    ensures var r := Collect(refs, store, count, increment, height, found);
            r.Headers? ==>
              && (|r.headers| <= count || r.headers == found)
              && found <= r.headers && Steps(r.headers, refs, origin, increment)
    decreases count - |found|
  {
    if |found| < count {
      LookupIsCanonical(refs, store, ToU64(height));
      match HeaderAtHeight(refs, store, ToU64(height))
      case NoHeader =>
      case Beyond =>
      case Found(header) =>
        StepsGrow(found, refs, origin, increment, header);
        WrapStep(height, increment);
        CollectSound(refs, store, count, increment, ToInt64(height + increment), found + [header], origin);
    }
  }

  lemma LowBits(i: int)
    requires -TWO_64 <= i < 2 * TWO_64
    ensures ToU64(i) == if i < 0 then i + TWO_64 else if i < TWO_64 then i else i - TWO_64
  {
  }

  lemma UnitIncrement(reverse: bool)
    ensures Increment(0, reverse) == if reverse then -1 else 1
  {
  }

  lemma StepBack(height: U64)
    ensures ToU64(ToU64(height + 1) - 1) == height
  {
    LowBits(height + 1);
    LowBits(ToU64(height + 1) - 1);
  }

  lemma BelowNext(head: U64, height: U64)
    requires Below(head, height) < TWO_64 - 1
    ensures Below(head, ToU64(height - 1)) == Below(head, height) + 1
  {
    LowBits(height - 1);
  }

  /** Canonical headers whose numbers are one apart are parent and child, at whatever heights the refs between stand. */
  lemma NextIsParent(refs: seq<BlockRef>, above: Header, below: Header)
    requires HashLinked(refs) && |refs| <= TWO_63 && Canonical(refs, above) && Canonical(refs, below)
    requires below.number == ToU64(above.number - 1)
    ensures IsParent(HashOf(above), HashOf(below))
  {
    var i := Below(refs[0].height, above.number);
    BelowNext(refs[0].height, above.number);
    assert refs[i] == refs[i + 1] || IsParent(refs[i].hash, refs[i + 1].hash);
  }

  ghost function Direction(reverse: bool): int {
    if reverse then -1 else 1
  }

  /** r starts at `origin` and moves by exactly skip + 1 heights a step. */
  ghost predicate Strides(r: seq<Header>, origin: int, skip: int, reverse: bool) {
    forall k :: 0 <= k < |r| ==> r[k].number == origin + Direction(reverse) * (k * (skip + 1))
  }

  /** The headers lie within 2^63 of each other. */
  ghost predicate Close(r: seq<Header>) {
    forall i, j :: 0 <= i < |r| && 0 <= j < |r| ==> r[i].number - r[j].number < TWO_63
  }

  lemma StepExact(from: U64, next: U64, skip: I64, reverse: bool)
    requires -TWO_63 < next - from < TWO_63 && next == ToU64(from + Increment(skip, reverse))
    ensures next == from + Direction(reverse) * (skip + 1)
  {
  }

  lemma OneMoreStride(k: nat, stride: int, reverse: bool)
    requires k > 0
    ensures Direction(reverse) * (k * stride) == Direction(reverse) * ((k - 1) * stride) + Direction(reverse) * stride
  {
    assert k * stride == (k - 1) * stride + stride;
  }

  /** Stepping modulo 2^64 is stepping exactly, as long as the headers are close. */
  lemma {:induction false} StrideExact(r: seq<Header>, skip: I64, reverse: bool, k: nat)
    requires k < |r| && Close(r)
    requires forall j :: 1 <= j < |r| ==> r[j].number == ToU64(r[j - 1].number + Increment(skip, reverse))
    ensures r[k].number == r[0].number + Direction(reverse) * (k * (skip + 1))
  {
    if k > 0 {
      StrideExact(r, skip, reverse, k - 1);
      StepExact(r[k - 1].number, r[k].number, skip, reverse);
      OneMoreStride(k, skip + 1, reverse);
    }
  }

  /** Canonical headers of a chain no longer than 2^63 are close, if none of its refs is above the head. */
  lemma CanonicalsAreClose(r: seq<Header>, refs: seq<BlockRef>, headers: HeaderStore)
    requires GoodRefs(headers, refs) && HeadIsHighest(refs) && 0 < |refs| <= TWO_63
    requires forall k :: 0 <= k < |r| ==> Canonical(refs, r[k])
    ensures Close(r)
  {
    forall k | 0 <= k < |r| ensures refs[0].height - |refs| < r[k].number <= refs[0].height {
      assert Canonical(refs, r[k]) && GoodRef(headers, refs[Below(refs[0].height, r[k].number)]);
    }
  }

  /** Each header is the parent of its neighbour, in the direction of the query. */
  ghost predicate ParentLinked(r: seq<Header>, reverse: bool) {
    forall k :: 1 <= k < |r| ==>
      if reverse then IsParent(HashOf(r[k - 1]), HashOf(r[k])) else IsParent(HashOf(r[k]), HashOf(r[k - 1]))
  }

  lemma NeighboursLinked(refs: seq<BlockRef>, a: Header, b: Header, reverse: bool)
    requires HashLinked(refs) && |refs| <= TWO_63 && Canonical(refs, a) && Canonical(refs, b)
    requires b.number == ToU64(a.number + Increment(0, reverse))
    ensures if reverse then IsParent(HashOf(a), HashOf(b)) else IsParent(HashOf(b), HashOf(a))
  {
    UnitIncrement(reverse);
    if reverse {
      NextIsParent(refs, a, b);
    } else {
      StepBack(a.number);
      NextIsParent(refs, b, a);
    }
  }

  lemma UnitStepsLinked(r: seq<Header>, refs: seq<BlockRef>, reverse: bool)
    requires HashLinked(refs) && |refs| <= TWO_63 && forall k :: 0 <= k < |r| ==> Canonical(refs, r[k])
    requires forall j :: 1 <= j < |r| ==> r[j].number == ToU64(r[j - 1].number + Increment(0, reverse))
    ensures ParentLinked(r, reverse)
  {
    forall k | 1 <= k < |r| ensures
        if reverse then IsParent(HashOf(r[k - 1]), HashOf(r[k])) else IsParent(HashOf(r[k]), HashOf(r[k - 1])) {
      NeighboursLinked(refs, r[k - 1], r[k], reverse);
    }
  }

  /** A chain of stored headers that queries are sound on, no longer than half the range of heights. */
  ghost predicate SoundStore(s: ChainData) {
    && GoodRefs(s.headers, s.refs) && Filed(s.headers)
    && Shallow(s.refs) && HashLinked(s.refs) && 0 < |s.refs| <= TWO_63
  }

  lemma OriginByNumber(s: ChainData, start: HashOrNumber)
    requires SoundStore(s) && start.number > 0
    ensures var o := FindOrigin(s, start);
            o.At? ==> o.height == start.number && |o.headers| == 1 && o.headers[0].number == start.number && Canonical(s.refs, o.headers[0])
  {
    var head, tail := s.refs[0].height, s.refs[|s.refs| - 1].height;
    assert Below(head, tail) <= |s.refs| - 1;
    IndexValue(head, start.number);
    LookupIsCanonical(s.refs, s.headers, start.number);
  }

  lemma ContinueSound(refs: seq<BlockRef>, store: HeaderStore, count: nat, increment: int, height: U64,
          found: seq<Header>)
    requires Filed(store) && |found| == 1 && found[0].number == height
    ensures var r := Continue(refs, store, count, increment, height, found);
            r.Headers? ==>
              && 1 <= |r.headers| <= (if count == 0 then 1 else count)
              && r.headers[0] == found[0] && Steps(r.headers, refs, height, increment)
  {
    WrapStep(height, increment);
    CollectSound(refs, store, count, increment, ToInt64(height + increment), found, height);
  }

  /**
   * What a query by number returns, if it succeeds: canonical headers from the origin on, each skip + 1
   * heights (modulo 2^64) from the one before; exactly that, if no ref is above the head; and with
   * skip 0 each is the parent of its neighbour.
   */
  ghost predicate SoundByNumber(s: ChainData, start: HashOrNumber, count: nat, skip: I64, reverse: bool) {
    var r := GetHeaders(s, start, count, skip, reverse);
    r.Headers? ==>
      && 1 <= |r.headers| <= (if count == 0 then 1 else count)
      && Steps(r.headers, s.refs, start.number, Increment(skip, reverse)) && Canonical(s.refs, r.headers[0])
      && (HeadIsHighest(s.refs) ==> Strides(r.headers, start.number, skip, reverse))
      && (skip == 0 ==> ParentLinked(r.headers, reverse))
  }

  /** It holds as coded, duplicates and ill-numbered blocks included, for any head and any skip that an int holds. */
  lemma ByNumberSound(s: ChainData, start: HashOrNumber, count: nat, skip: I64, reverse: bool)
    requires SoundStore(s) && start.number > 0
    ensures SoundByNumber(s, start, count, skip, reverse)
  {
    OriginByNumber(s, start);
    match FindOrigin(s, start)
    case NoOrigin(_) =>
    case At(height, found) =>
      var r := GetHeaders(s, start, count, skip, reverse);
      ContinueSound(s.refs, s.headers, count, Increment(skip, reverse), height, found);
      if r.Headers? {
        CanonicalStepsSound(s, r.headers, start.number, skip, reverse);
      }
  }

  lemma CanonicalStepsSound(s: ChainData, r: seq<Header>, origin: int, skip: I64, reverse: bool)
    requires SoundStore(s) && Steps(r, s.refs, origin, Increment(skip, reverse)) && Canonical(s.refs, r[0])
    ensures HeadIsHighest(s.refs) ==> Strides(r, origin, skip, reverse)
    ensures skip == 0 ==> ParentLinked(r, reverse)
  {
    if HeadIsHighest(s.refs) {
      CanonicalsAreClose(r, s.refs, s.headers);
      forall k | 0 <= k < |r| ensures r[k].number == origin + Direction(reverse) * (k * (skip + 1)) {
        StrideExact(r, skip, reverse, k);
      }
    }
    if skip == 0 {
      UnitStepsLinked(r, s.refs, reverse);
    }
  }

  /**
   * What a query by hash returns, if it succeeds: the header of that hash, canonical or not, and from
   * its height on canonical headers as above; with skip 0 these are parent-linked, and the header asked
   * for with them if it is canonical itself.
   */
  ghost predicate SoundByHash(s: ChainData, hash: Hash, count: nat, skip: I64, reverse: bool) {
    var r := GetHeaders(s, HashOrNumber(hash, 0), count, skip, reverse);
    r.Headers? ==>
      && 1 <= |r.headers| <= (if count == 0 then 1 else count)
      && HashOf(r.headers[0]) == hash && Steps(r.headers, s.refs, hash.header.number, Increment(skip, reverse))
      && (skip == 0 ==> ParentLinked(r.headers[1..], reverse))
      && (Canonical(s.refs, r.headers[0]) ==>
            && (HeadIsHighest(s.refs) ==> Strides(r.headers, hash.header.number, skip, reverse))
            && (skip == 0 ==> ParentLinked(r.headers, reverse)))
  }

  lemma TailLinked(refs: seq<BlockRef>, r: seq<Header>, origin: int, reverse: bool)
    requires HashLinked(refs) && |refs| <= TWO_63 && Steps(r, refs, origin, Increment(0, reverse))
    ensures ParentLinked(r[1..], reverse)
  {
    var tail := r[1..];
    forall j | 1 <= j < |tail| ensures tail[j].number == ToU64(tail[j - 1].number + Increment(0, reverse)) {
      assert tail[j] == r[j + 1] && tail[j - 1] == r[j];
    }
    UnitStepsLinked(tail, refs, reverse);
  }

  lemma ByHashSound(s: ChainData, hash: Hash, count: nat, skip: I64, reverse: bool)
    requires SoundStore(s) && Indexed(s.headers, s.metadata)
    ensures SoundByHash(s, hash, count, skip, reverse)
  {
    match FindOrigin(s, HashOrNumber(hash, 0))
    case NoOrigin(_) =>
    case At(height, found) =>
      var r := GetHeaders(s, HashOrNumber(hash, 0), count, skip, reverse);
      ContinueSound(s.refs, s.headers, count, Increment(skip, reverse), height, found);
      if r.Headers? {
        if skip == 0 {
          TailLinked(s.refs, r.headers, height, reverse);
        }
        if Canonical(s.refs, r.headers[0]) {
          CanonicalStepsSound(s, r.headers, height, skip, reverse);
        }
      }
  }

  // What a query must answer

  /** The ref as many places down as a height is below the head stands at that height. */
  predicate Served(refs: seq<BlockRef>, height: U64) {
    refs != [] && var i := Below(refs[0].height, height); i < |refs| && refs[i].height == height
  }

  /** A lookup finds the header of that ref; where there is none, the half of the range it is in decides. */
  lemma LookupIff(refs: seq<BlockRef>, headers: HeaderStore, height: U64)
    requires GoodRefs(headers, refs) && Filed(headers) && 0 < |refs| <= TWO_63
    ensures HeaderAtHeight(refs, headers, height)
            == if Served(refs, height) then Found(refs[Below(refs[0].height, height)].hash.header)
               else if Below(refs[0].height, height) < TWO_63 then NoHeader else Beyond
  {
    IndexValue(refs[0].height, height);
    if Below(refs[0].height, height) < |refs| {
      LookupExact(refs, headers, height);
    }
  }

  /** What a query starts from, or why it fails. */
  function DueOrigin(s: ChainData, start: HashOrNumber): Origin {
    if start.number > HeadHeight(s.refs) then NoOrigin(ErrFutureHeaders)
    else if start.number > 0 then
      if s.refs == [] || start.number < s.refs[|s.refs| - 1].height then NoOrigin(ErrAncientHeaders)
      else if !Served(s.refs, start.number) then NoOrigin(ErrNoHeader)
      else
        var hash := s.refs[Below(s.refs[0].height, start.number)].hash;
        if hash.HashOf? then At(start.number, [hash.header]) else NoOrigin(ErrNoHeader)
    else if start.hash.HashOf? && start.hash in s.metadata then At(start.hash.header.number, [start.hash.header])
    else NoOrigin(if start.hash == ZERO_HASH then ErrInvalidRequest else ErrUnknownHash)
  }

  lemma OriginExact(s: ChainData, start: HashOrNumber)
    requires start.number > 0 ==> SoundStore(s)
    requires start.number == 0 ==> Indexed(s.headers, s.metadata)
    ensures FindOrigin(s, start) == DueOrigin(s, start)
    ensures DueOrigin(s, start).At? ==> DueOrigin(s, start).headers[0].number == DueOrigin(s, start).height
  {
    if start.number > 0 {
      var head, tail := s.refs[0].height, s.refs[|s.refs| - 1].height;
      assert Below(head, tail) <= |s.refs| - 1;
      LookupIff(s.refs, s.headers, start.number);
      if Served(s.refs, start.number) {
        assert GoodRef(s.headers, s.refs[Below(head, start.number)]);
      }
    }
  }

  /** The next height of a walk that has come to the last of these headers. */
  function Next(r: seq<Header>, increment: int): U64
    requires r != []
  {
    ToU64(r[|r| - 1].number + increment)
  }

  /** The walk ends with these headers: they are as many as asked for, or there is none at the next height. */
  predicate WalkEnds(refs: seq<BlockRef>, r: seq<Header>, count: nat, increment: int)
    requires r != []
  {
    |r| >= count || !Served(refs, Next(r, increment))
  }

  /** What is then answered: an error, unless these are all, or the next height passes for one above the head. */
  function Answered(refs: seq<BlockRef>, r: seq<Header>, count: nat, increment: int): QueryResult
    requires r != [] && refs != []
  {
    if |r| >= count || Below(refs[0].height, Next(r, increment)) >= TWO_63 then Headers(r) else Failed(ErrNoHeader)
  }

  lemma {:induction false} CollectFollows(refs: seq<BlockRef>, store: HeaderStore, count: nat, increment: int,
          height: int, r: seq<Header>, k: nat, origin: int)
    requires GoodRefs(store, refs) && Filed(store) && 0 < |refs| <= TWO_63
    requires Steps(r, refs, origin, increment) && 0 < k <= |r| <= count && WalkEnds(refs, r, count, increment)
    requires ToU64(height) == ToU64(r[k - 1].number + increment)
    ensures Collect(refs, store, count, increment, height, r[..k]) == Answered(refs, r, count, increment)
    decreases |r| - k
  {
    LookupIff(refs, store, ToU64(height));
    if k < |r| {
      assert Canonical(refs, r[k]) && GoodRef(store, refs[Below(refs[0].height, r[k].number)]);
      assert r[..k + 1] == r[..k] + [r[k]];
      WrapStep(height, increment);
      CollectFollows(refs, store, count, increment, ToInt64(height + increment), r, k + 1, origin);
    } else {
      assert r[..k] == r;
    }
  }

  /** A query that has its first header answers with the walk from it, which the refs alone determine. */
  lemma ContinueExact(refs: seq<BlockRef>, store: HeaderStore, count: nat, increment: int, r: seq<Header>)
    requires GoodRefs(store, refs) && Filed(store) && 0 < |refs| <= TWO_63
    requires r != [] && Steps(r, refs, r[0].number, increment) && WalkEnds(refs, r, count, increment)
    requires |r| == 1 || |r| <= count
    ensures Continue(refs, store, count, increment, r[0].number, [r[0]]) == Answered(refs, r, count, increment)
  {
    if count > 1 {
      WrapStep(r[0].number, increment);
      assert r[..1] == [r[0]];
      CollectFollows(refs, store, count, increment, ToInt64(r[0].number + increment), r, 1, r[0].number);
    }
  }

  /** There is such a walk from every header. */
  lemma {:induction false} WalkFrom(refs: seq<BlockRef>, store: HeaderStore, count: nat, increment: int, r: seq<Header>)
      returns (whole: seq<Header>)
    requires GoodRefs(store, refs) && Filed(store)
    requires r != [] && Steps(r, refs, r[0].number, increment) && (|r| == 1 || |r| <= count)
    ensures r <= whole && Steps(whole, refs, r[0].number, increment) && WalkEnds(refs, whole, count, increment)
    ensures |whole| == 1 || |whole| <= count
    decreases count - |r|
  {
    if WalkEnds(refs, r, count, increment) {
      whole := r;
    } else {
      var ref := refs[Below(refs[0].height, Next(r, increment))];
      assert GoodRef(store, ref);
      StepsGrow(r, refs, r[0].number, increment, ref.hash.header);
      whole := WalkFrom(refs, store, count, increment, r + [ref.hash.header]);
    }
  }

  /** The answer to a query, in full: told by its first header and the refs. */
  ghost predicate Answers(s: ChainData, start: HashOrNumber, count: nat, skip: I64, reverse: bool) {
    var result := GetHeaders(s, start, count, skip, reverse);
    match DueOrigin(s, start)
    case NoOrigin(error) => result == Failed(error)
    case At(height, found) =>
      && |found| == 1 && found[0].number == height
      && (count <= 1 ==> result == Headers(found))
      && forall r :: r != [] && r[0] == found[0] && Steps(r, s.refs, height, Increment(skip, reverse)) && (|r| == 1 || |r| <= count)
                     && s.refs != [] && WalkEnds(s.refs, r, count, Increment(skip, reverse)) ==>
           result == Answered(s.refs, r, count, Increment(skip, reverse))
  }

  lemma QueryAnswers(s: ChainData, start: HashOrNumber, count: nat, skip: I64, reverse: bool)
    requires SoundStore(s) && Indexed(s.headers, s.metadata)
    ensures Answers(s, start, count, skip, reverse)
  {
    OriginExact(s, start);
    match FindOrigin(s, start)
    case NoOrigin(_) =>
    case At(height, found) =>
      var increment := Increment(skip, reverse);
      forall r | r != [] && r[0] == found[0] && Steps(r, s.refs, height, increment) && (|r| == 1 || |r| <= count)
                 && WalkEnds(s.refs, r, count, increment)
        ensures GetHeaders(s, start, count, skip, reverse) == Answered(s.refs, r, count, increment) {
        ContinueExact(s.refs, s.headers, count, increment, r);
      }
  }

  /** In any state with agreeing maps, a query for one header by the hash of a block returns it, or fails if it is not stored. */
  lemma ByHashAnswers(s: ChainData, hash: Hash, count: nat, skip: I64, reverse: bool)
    requires Indexed(s.headers, s.metadata) && count <= 1
    ensures GetHeaders(s, HashOrNumber(hash, 0), count, skip, reverse)
            == if hash.HashOf? && hash in s.metadata then Headers([hash.header])
               else Failed(if hash == ZERO_HASH then ErrInvalidRequest else ErrUnknownHash)
  {
    OriginExact(s, HashOrNumber(hash, 0));
  }

  // How much a query returns on a strict chain

  /** How many strides of `step` fit in a gap. */
  function Fits(gap: int, step: nat): nat
    requires step > 0
    decreases if gap < 0 then 0 else gap
  {
    if gap < step then 0 else 1 + Fits(gap - step, step)
  }

  lemma {:induction false} FitsIsQuotient(gap: nat, step: nat)
    requires step > 0
    ensures Fits(gap, step) * step <= gap < (Fits(gap, step) + 1) * step
  {
    if gap >= step {
      FitsIsQuotient(gap - step, step);
      assert Fits(gap, step) * step == Fits(gap - step, step) * step + step;
      assert (Fits(gap, step) + 1) * step == (Fits(gap - step, step) + 1) * step + step;
    }
  }

  /** A strict chain of stored headers, no longer than half the range of heights. */
  ghost predicate StrictStore(refs: seq<BlockRef>, store: HeaderStore) {
    GoodRefs(store, refs) && Filed(store) && Strict(refs) && 0 < |refs| <= TWO_63
  }

  lemma AsInt(i: int)
    requires -TWO_63 <= i <= TWO_63
    ensures ToInt64(i) == if i < TWO_63 then i else -TWO_63
  {
    LowBits(i);
  }

  lemma NextHeight(last: U64, step: int)
    requires 1 <= step <= TWO_63
    ensures ToU64(last + ToInt64(step)) == if last + step < TWO_64 then last + step else last + step - TWO_64
    ensures ToU64(last + ToInt64(-step)) == if last - step >= 0 then last - step else last - step + TWO_64
  {
    AsInt(step);
    AsInt(-step);
    LowBits(last + ToInt64(step));
    LowBits(last + ToInt64(-step));
  }

  lemma ForwardLookup(refs: seq<BlockRef>, store: HeaderStore, last: U64, step: int, height: int)
    requires StrictStore(refs, store) && 1 <= step <= TWO_63
    requires refs[|refs| - 1].height <= last <= refs[0].height && ToU64(height) == ToU64(last + ToInt64(step))
    ensures var r := HeaderAtHeight(refs, store, ToU64(height));
            if last + step <= refs[0].height then r.Found? && r.header.number == last + step else r == Beyond
  {
    NextHeight(last, step);
    StrictHeights(refs, |refs| - 1);
    LookupStrict(refs, store, ToU64(height));
    LookupIsCanonical(refs, store, ToU64(height));
  }

  lemma BackwardLookup(refs: seq<BlockRef>, store: HeaderStore, last: U64, step: int, height: int)
    requires StrictStore(refs, store) && 1 <= step <= TWO_63
    requires refs[|refs| - 1].height <= last <= refs[0].height && ToU64(height) == ToU64(last + ToInt64(-step))
    ensures var r := HeaderAtHeight(refs, store, ToU64(height));
            if last - step >= refs[|refs| - 1].height then r.Found? && r.header.number == last - step
            else if refs[0].height - (last - step) < TWO_63 then r == NoHeader
            else r == Beyond
  {
    NextHeight(last, step);
    StrictHeights(refs, |refs| - 1);
    LookupStrict(refs, store, ToU64(height));
    LookupIsCanonical(refs, store, ToU64(height));
  }

  /** The answer to a forward query that goes on from a header at `last`, `have` headers being found. */
  ghost predicate ForwardAnswer(r: QueryResult, refs: seq<BlockRef>, last: int, step: nat, have: nat, count: nat)
    requires refs != [] && step > 0
  {
    var more := Fits(refs[0].height - last, step);
    r.Headers? && |r.headers| == if have + more < count then have + more else count
  }

  lemma {:induction false} CollectForward(refs: seq<BlockRef>, store: HeaderStore, count: nat, step: int,
          height: int, found: seq<Header>, last: U64)
    requires StrictStore(refs, store) && 1 <= step <= TWO_63
    requires refs[|refs| - 1].height <= last <= refs[0].height && ToU64(height) == ToU64(last + ToInt64(step))
    requires |found| <= count
    ensures ForwardAnswer(Collect(refs, store, count, ToInt64(step), height, found), refs, last, step, |found|, count)
    decreases count - |found|
  {
    if |found| < count {
      ForwardLookup(refs, store, last, step, height);
      match HeaderAtHeight(refs, store, ToU64(height))
      case Beyond =>
      case Found(header) =>
        WrapStep(height, ToInt64(step));
        CollectForward(refs, store, count, step, ToInt64(height + ToInt64(step)), found + [header], last + step);
    }
  }

  /**
   * The answer to a reverse query that goes on from a header at `last`, `have` headers being found:
   * all that were asked for, an error, or, when the index wraps, what there is.
   */
  ghost predicate BackwardAnswer(r: QueryResult, refs: seq<BlockRef>, last: int, step: nat, have: nat, count: nat)
    requires refs != [] && step > 0
  {
    var more := Fits(last - refs[|refs| - 1].height, step);
    if have + more >= count then r.Headers? && |r.headers| == count
    else if refs[0].height - (last - (more + 1) * step) < TWO_63 then r == Failed(ErrNoHeader)
    else r.Headers? && |r.headers| == have + more
  }

  lemma AnswerEarlier(r: QueryResult, refs: seq<BlockRef>, last: int, step: nat, have: nat, count: nat)
    requires refs != [] && step > 0 && last - step >= refs[|refs| - 1].height
    ensures BackwardAnswer(r, refs, last, step, have, count) <==> BackwardAnswer(r, refs, last - step, step, have + 1, count)
  {
    var more := Fits(last - refs[|refs| - 1].height, step);
    assert (more + 1) * step == more * step + step;
  }

  lemma {:induction false} CollectBackward(refs: seq<BlockRef>, store: HeaderStore, count: nat, step: int,
          height: int, found: seq<Header>, last: U64)
    requires StrictStore(refs, store) && 1 <= step <= TWO_63
    requires refs[|refs| - 1].height <= last <= refs[0].height && ToU64(height) == ToU64(last + ToInt64(-step))
    requires |found| <= count
    ensures BackwardAnswer(Collect(refs, store, count, ToInt64(-step), height, found), refs, last, step, |found|, count)
    decreases count - |found|
  {
    if |found| < count {
      BackwardLookup(refs, store, last, step, height);
      match HeaderAtHeight(refs, store, ToU64(height))
      case NoHeader =>
      case Beyond =>
      case Found(header) =>
        WrapStep(height, ToInt64(-step));
        CollectBackward(refs, store, count, step, ToInt64(height + ToInt64(-step)), found + [header], last - step);
        AnswerEarlier(Collect(refs, store, count, ToInt64(-step), height, found), refs, last, step, |found|, count);
    }
  }

  /** The height a query starts from. */
  function OriginNumber(start: HashOrNumber): U64 {
    if start.number > 0 || start.hash.Unknown? then start.number else start.hash.header.number
  }

  /** A query by number, or by the hash of a stored block, from a height between those of the tail and the head. */
  ghost predicate StartsOn(s: ChainData, start: HashOrNumber) {
    && s.refs != [] && s.refs[|s.refs| - 1].height <= OriginNumber(start) <= s.refs[0].height
    && (start.number > 0 || (Indexed(s.headers, s.metadata) && start.hash in s.metadata))
  }

  lemma OriginOnStrict(s: ChainData, start: HashOrNumber) returns (header: Header)
    requires StrictStore(s.refs, s.headers) && StartsOn(s, start)
    ensures FindOrigin(s, start) == At(OriginNumber(start), [header]) && header.number == OriginNumber(start)
  {
    if start.number > 0 {
      LookupStrict(s.refs, s.headers, start.number);
      LookupIsCanonical(s.refs, s.headers, start.number);
      header := HeaderAtHeight(s.refs, s.headers, start.number).header;
    } else {
      header := start.hash.header;
    }
  }

  /** Past its shortcut for one header, a query is the walk from the next height on. */
  lemma ContinueIsCollect(refs: seq<BlockRef>, store: HeaderStore, count: nat, increment: int, height: U64,
          found: seq<Header>)
    requires |found| == 1
    ensures var next := ToInt64(height + increment);
            && ToU64(next) == ToU64(height + increment)
            && Continue(refs, store, count, increment, height, found)
               == if count > 1 then Collect(refs, store, count, increment, next, found) else Headers(found)
  {
  }

  lemma ContinueForward(refs: seq<BlockRef>, store: HeaderStore, count: nat, step: int, header: Header)
    requires StrictStore(refs, store) && 1 <= step <= TWO_63
    requires refs[|refs| - 1].height <= header.number <= refs[0].height
    ensures var r := Continue(refs, store, count, ToInt64(step), header.number, [header]);
            if count == 0 then r == Headers([header]) else ForwardAnswer(r, refs, header.number, step, 1, count)
  {
    var increment := ToInt64(step);
    ContinueIsCollect(refs, store, count, increment, header.number, [header]);
    if count > 1 {
      CollectForward(refs, store, count, step, ToInt64(header.number + increment), [header], header.number);
    }
  }

  lemma ContinueBackward(refs: seq<BlockRef>, store: HeaderStore, count: nat, step: int, header: Header)
    requires StrictStore(refs, store) && 1 <= step <= TWO_63
    requires refs[|refs| - 1].height <= header.number <= refs[0].height
    ensures var r := Continue(refs, store, count, ToInt64(-step), header.number, [header]);
            if count == 0 then r == Headers([header]) else BackwardAnswer(r, refs, header.number, step, 1, count)
  {
    var increment := ToInt64(-step);
    ContinueIsCollect(refs, store, count, increment, header.number, [header]);
    if count > 1 {
      CollectBackward(refs, store, count, step, ToInt64(header.number + increment), [header], header.number);
    }
  }

  /** Forwards a query returns all there is: up to count headers, up to the head. */
  ghost predicate AnswersForward(s: ChainData, start: HashOrNumber, count: nat, skip: nat)
    requires StartsOn(s, start)
  {
    var r, there := GetHeaders(s, start, count, skip, false), Fits(s.refs[0].height - OriginNumber(start), skip + 1) + 1;
    r.Headers? && |r.headers| == (if count == 0 then 1 else if there < count then there else count)
  }

  lemma ForwardComplete(s: ChainData, start: HashOrNumber, count: nat, skip: nat)
    requires StrictStore(s.refs, s.headers) && skip < TWO_63 && StartsOn(s, start)
    ensures AnswersForward(s, start, count, skip)
  {
    var header := OriginOnStrict(s, start);
    ContinueForward(s.refs, s.headers, count, skip + 1, header);
  }

  /**
   * Backwards it returns all count headers if they lie on the chain. Otherwise it fails, if and only
   * if the first height below the tail is less than 2^63 under the head; at 2^63 and more the index
   * wraps, the height passes for one above the head, and the answer is what there is.
   */
  ghost predicate AnswersBackward(s: ChainData, start: HashOrNumber, count: nat, skip: nat)
    requires StartsOn(s, start)
  {
    var r, head, tail := GetHeaders(s, start, count, skip, true), s.refs[0].height, s.refs[|s.refs| - 1].height;
    var below := Fits(OriginNumber(start) - tail, skip + 1);
    var passed := OriginNumber(start) - (below + 1) * (skip + 1);
    && passed < tail
    && (below + 1 >= count ==> r.Headers? && |r.headers| == if count == 0 then 1 else count)
    && (below + 1 < count ==>
          && (r == Failed(ErrNoHeader) <==> head - passed < TWO_63)
          && (r != Failed(ErrNoHeader) ==> r.Headers? && |r.headers| == below + 1))
  }

  lemma BackwardComplete(s: ChainData, start: HashOrNumber, count: nat, skip: nat)
    requires StrictStore(s.refs, s.headers) && skip < TWO_63 && StartsOn(s, start)
    ensures AnswersBackward(s, start, count, skip)
  {
    var header := OriginOnStrict(s, start);
    ContinueBackward(s.refs, s.headers, count, skip + 1, header);
    FitsIsQuotient(OriginNumber(start) - s.refs[|s.refs| - 1].height, skip + 1);
  }

  /** Both answers occur: from block 5 of blocks 1 to 5, two steps back with skip 4, and with skip 2^63 - 1. */
  lemma BothAnswersOccur(s: ChainData)
    requires StrictStore(s.refs, s.headers) && s.refs[0].height == 5 && s.refs[|s.refs| - 1].height == 1
    ensures GetHeaders(s, HashOrNumber(ZERO_HASH, 5), 2, 4, true) == Failed(ErrNoHeader)
    ensures GetHeaders(s, HashOrNumber(ZERO_HASH, 5), 2, TWO_63 - 1, true).Headers?
  {
    BackwardComplete(s, HashOrNumber(ZERO_HASH, 5), 2, 4);
    BackwardComplete(s, HashOrNumber(ZERO_HASH, 5), 2, TWO_63 - 1);
  }
}
