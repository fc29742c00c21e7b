/** The chain's storage around its canonical refs, as one value, and the operations on it. */
module ChainStore {
  import opened GoInts
  import opened EthTypes
  import opened ForkChoice

  datatype Metadata = Metadata(height: U64, sentToBDN: bool, confirmed: bool, confirmedMsgSent: bool)
  datatype BlockSource = BDN | Blockchain
  datatype BlockInfo = BlockInfo(header: Header, body: Body, difficulty: Option<nat>)

  datatype ChainData = ChainData(
    refs: seq<BlockRef>,
    headers: HeaderStore,
    metadata: map<Hash, Metadata>,
    bodies: map<Hash, Body>,
    difficulties: map<Hash, nat>)

  const EMPTY_CHAIN: ChainData := ChainData([], map[], map[], map[], map[])

  // Storing

  function StoreMetadata(m: map<Hash, Metadata>, hash: Hash, height: U64, confirmed: bool,
          msgSent: bool): map<Hash, Metadata> {
    if hash !in m then m[hash := Metadata(height, false, confirmed, msgSent)]
    else m[hash := m[hash].(confirmed := m[hash].confirmed || confirmed, confirmedMsgSent := m[hash].confirmedMsgSent || msgSent)]
  }

  function StoreHeader(headers: HeaderStore, header: Header): HeaderStore {
    headers[header.number := (if header.number in headers then headers[header.number] else []) + [header]]
  }

  function StoreBlock(s: ChainData, block: Block, difficulty: Option<nat>, source: BlockSource): ChainData {
    var hash := HashOf(block.header);
    s.(headers := StoreHeader(s.headers, block.header),
       metadata := StoreMetadata(s.metadata, hash, block.header.number, source == Blockchain, false),
       bodies := s.bodies[hash := block.body],
       difficulties := if difficulty.Some? then s.difficulties[hash := difficulty.value] else s.difficulties)
  }

  predicate HasBlock(s: ChainData, hash: Hash) {
    hash in s.metadata && hash in s.bodies
  }

  /** How far above the head, in heights, a block may be. */
  const MAX_FUTURE_BLOCK_NUMBER: nat := 100

  datatype Validation = Acceptable | AlreadySeen | TooFarAhead

  /** Whether a block may be added. Its number and the highest one allowed are read as 64-bit ints. */
  function Validate(s: ChainData, hash: Hash, number: U64): Validation {
    if HasBlock(s, hash) && s.metadata[hash].sentToBDN && s.metadata[hash].confirmed then AlreadySeen
    else if s.refs != [] && s.refs[0].height != 0 && ToInt64(number) > ToInt64(ToU64(s.refs[0].height + MAX_FUTURE_BLOCK_NUMBER))
    then TooFarAhead
    else Acceptable
  }

  /** Storing a block, or only its confirmation when it is stored already. */
  function Receive(s: ChainData, block: Block, difficulty: Option<nat>, source: BlockSource): ChainData {
    var hash := HashOf(block.header);
    if HasBlock(s, hash) then s.(metadata := StoreMetadata(s.metadata, hash, block.header.number, source == Blockchain, false))
    else StoreBlock(s, block, difficulty, source)
  }

  /** Only a block from the blockchain has the authority to change the refs. */
  function AddBlock(cfg: Config, s: ChainData, block: Block, difficulty: Option<nat>,
          source: BlockSource): (ChainData, nat) {
    var s1 := Receive(s, block, difficulty, source);
    if source == BDN then (s1, 0)
    else
      var (refs, n) := Update(cfg, s1.refs, s1.headers, block.header.number, HashOf(block.header), block.header.parentHash);
      (s1.(refs := refs), n)
  }

  /** Confirming a known hash, and the header that is then offered to the refs, if it is filed. */
  function Confirm(s: ChainData, hash: Hash): (ChainData, Option<Header>) {
    if hash !in s.metadata then (s, None)
    else
      (s.(metadata := s.metadata[hash := s.metadata[hash].(confirmed := true)]),
       FindHeader(s.headers, s.metadata[hash].height, hash))
  }

  function ConfirmBlock(cfg: Config, s: ChainData, hash: Hash): (ChainData, nat) {
    match Confirm(s, hash)
    case (s1, None) => (s1, 0)
    case (s1, Some(header)) =>
      var (refs, n) := Update(cfg, s.refs, s.headers, s.metadata[hash].height, hash, header.parentHash);
      (s1.(refs := refs), n)
  }

  function MarkSent(m: map<Hash, Metadata>, hash: Hash): map<Hash, Metadata> {
    if hash in m then m[hash := m[hash].(sentToBDN := true)] else m
  }

  // Pruning

  /** Lowest height kept, computed as the code does: on 64-bit ints, with wrap-around. */
  function MinHeight(head: U64, maxSize: nat): int {
    ToInt64(ToInt64(head) - maxSize + 1)
  }

  /** A height that pruning drops: it must fit an int (others are skipped) and lie below the minimum. */
  predicate Doomed(head: U64, maxSize: nat, height: U64) {
    height < TWO_63 && height < MinHeight(head, maxSize)
  }

  ghost predicate Pruned(s: ChainData, maxSize: nat, hash: Hash)
    requires s.refs != []
  {
    exists n, x :: n in s.headers && Doomed(s.refs[0].height, maxSize, n) && x in s.headers[n] && hash == HashOf(x)
  }

  ghost function Clean(s: ChainData, maxSize: nat): ChainData {
    if s.refs == [] || |s.headers| < maxSize then s
    else
      ChainData(
        if |s.refs| > maxSize then s.refs[..maxSize] else s.refs,
        map n | n in s.headers && !Doomed(s.refs[0].height, maxSize, n) :: s.headers[n],
        map h | h in s.metadata && !Pruned(s, maxSize, h) :: s.metadata[h],
        map h | h in s.bodies && !Pruned(s, maxSize, h) :: s.bodies[h],
        map h | h in s.difficulties && !Pruned(s, maxSize, h) :: s.difficulties[h])
  }

  // Reading

  /** Outcome of looking up the canonical header at a height: found, above the head, or an error. */
  datatype Lookup = Found(header: Header) | Beyond | NoHeader

  /** The index into the refs, computed as the code does: a uint64 difference read as an int. */
  function IndexOf(head: U64, height: U64): int {
    ToInt64(ToU64(head - height))
  }

  function HeaderAtHeight(refs: seq<BlockRef>, headers: HeaderStore, height: U64): Lookup {
    if refs == [] then NoHeader
    else
      var index := IndexOf(refs[0].height, height);
      if index < 0 then Beyond
      else if index >= |refs| then NoHeader
      else
        match FindHeader(headers, height, refs[index].hash)
        case None => NoHeader
        case Some(header) => Found(header)
  }

  /** NilHeader stands for the block built from a nil header, which the code would dereference. */
  datatype DepthResult = DepthBlock(header: Header, body: Body) | DepthError | NilHeader

  function BlockAtDepth(s: ChainData, depth: nat): DepthResult {
    if |s.refs| <= depth then DepthError
    else
      var ref := s.refs[depth];
      match HeaderAtHeight(s.refs, s.headers, ref.height)
      case NoHeader => DepthError
      case Beyond => if ref.hash in s.bodies then NilHeader else DepthError
      case Found(header) => if ref.hash in s.bodies then DepthBlock(header, s.bodies[ref.hash]) else DepthError
  }

  datatype HeadsError = NoError | ShortChain | Inconsistent

  function InfoOf(s: ChainData, header: Header): BlockInfo
    requires HashOf(header) in s.bodies
  {
    var hash := HashOf(header);
    BlockInfo(header, s.bodies[hash], if hash in s.difficulties then Some(s.difficulties[hash]) else None)
  }

  /** The new heads from index i on, in descending order, up to the first one already sent. */
  function NewHeads(s: ChainData, i: nat, count: nat): (seq<BlockInfo>, HeadsError)
    decreases count - i
  {
    if i >= count then ([], NoError)
    else if |s.refs| <= i then ([], ShortChain)
    else
      var ref := s.refs[i];
      if ref.hash !in s.metadata then ([], Inconsistent)
      else if s.metadata[ref.hash].sentToBDN then ([], NoError)
      else
        match FindHeader(s.headers, ref.height, ref.hash)
        case None => ([], Inconsistent)
        case Some(header) =>
          if ref.hash !in s.bodies then ([], Inconsistent)
          else
            var (rest, err) := NewHeads(s, i + 1, count);
            ([InfoOf(s, header)] + rest, err)
  }

  // What every operation keeps

  /** A hash has metadata exactly when its header is filed, and the metadata records its height. */
  ghost predicate Indexed(headers: HeaderStore, metadata: map<Hash, Metadata>) {
    && Filed(headers)
    && (forall h :: h in metadata ==> h.HashOf? && metadata[h].height == h.header.number && Stored(headers, h.header))
    && (forall n, x :: n in headers && x in headers[n] ==> HashOf(x) in metadata)
  }

  /**
   * The maps agree with each other and with the refs: a hash has metadata exactly when its header
   * is filed, under the height its metadata records, and exactly when its body is stored.
   */
  ghost predicate Consistent(s: ChainData) {
    && Indexed(s.headers, s.metadata)
    && SameKeys(s)
    && GoodRefs(s.headers, s.refs)
  }

  ghost predicate SameKeys(s: ChainData) {
    s.metadata.Keys == s.bodies.Keys && s.difficulties.Keys <= s.metadata.Keys
  }

  lemma StoreHeaderAdds(headers: HeaderStore, header: Header, x: Header)
    ensures Stored(StoreHeader(headers, header), x) <==> Stored(headers, x) || x == header
  {
  }

  lemma StoreBlockKeepsIndexed(headers: HeaderStore, metadata: map<Hash, Metadata>, header: Header, confirmed: bool)
    requires Indexed(headers, metadata)
    ensures Indexed(StoreHeader(headers, header), StoreMetadata(metadata, HashOf(header), header.number, confirmed, false))
  {
    var headers' := StoreHeader(headers, header);
    var metadata' := StoreMetadata(metadata, HashOf(header), header.number, confirmed, false);
    forall n, x: Header | n in headers' && x in headers'[n] ensures x.number == n && HashOf(x) in metadata' {
      assert x == header || x in headers[n];
    }
    forall h | h in metadata' ensures h.HashOf? && metadata'[h].height == h.header.number && Stored(headers', h.header) {
      assert h == HashOf(header) || h in metadata;
    }
  }

  lemma StoreHeaderKeepsGoodRefs(headers: HeaderStore, header: Header, refs: seq<BlockRef>)
    requires GoodRefs(headers, refs)
    ensures GoodRefs(StoreHeader(headers, header), refs)
  {
    forall i | 0 <= i < |refs| ensures GoodRef(StoreHeader(headers, header), refs[i]) {
      assert GoodRef(headers, refs[i]);
      StoreHeaderAdds(headers, header, refs[i].hash.header);
    }
  }

  lemma StoreBlockKeepsConsistent(s: ChainData, block: Block, difficulty: Option<nat>, source: BlockSource)
    requires Consistent(s)
    ensures Consistent(StoreBlock(s, block, difficulty, source))
    ensures Stored(StoreBlock(s, block, difficulty, source).headers, block.header)
  {
    StoreBlockKeepsIndexed(s.headers, s.metadata, block.header, source == Blockchain);
    StoreHeaderKeepsGoodRefs(s.headers, block.header, s.refs);
  }

  lemma ReceiveKeepsConsistent(s: ChainData, block: Block, difficulty: Option<nat>, source: BlockSource)
    requires Consistent(s)
    ensures var s1 := Receive(s, block, difficulty, source); Consistent(s1) && Stored(s1.headers, block.header)
  {
    if !HasBlock(s, HashOf(block.header)) {
      StoreBlockKeepsConsistent(s, block, difficulty, source);
    }
  }

  lemma AddBlockKeepsConsistent(cfg: Config, s: ChainData, block: Block, difficulty: Option<nat>, source: BlockSource)
    requires Sane(cfg) && Consistent(s)
    ensures Consistent(AddBlock(cfg, s, block, difficulty, source).0)
  {
    var s1 := Receive(s, block, difficulty, source);
    ReceiveKeepsConsistent(s, block, difficulty, source);
    UpdateKeepsGood(cfg, s1.refs, s1.headers, block.header);
  }

  lemma ConfirmBlockKeepsConsistent(cfg: Config, s: ChainData, hash: Hash)
    requires Sane(cfg) && Consistent(s)
    ensures Consistent(ConfirmBlock(cfg, s, hash).0)
  {
    if hash in s.metadata {
      UpdateKeepsGood(cfg, s.refs, s.headers, hash.header);
    }
  }

  lemma DoomedIsDeep(head: U64, maxSize: nat, height: U64)
    requires Doomed(head, maxSize, height) && maxSize < TWO_63
    ensures height + maxSize <= head
  {
  }

  lemma CleanKeepsStored(s: ChainData, maxSize: nat, header: Header)
    requires Filed(s.headers) && s.refs != [] && |s.headers| >= maxSize
    ensures Stored(Clean(s, maxSize).headers, header) <==> Stored(s.headers, header) && !Doomed(s.refs[0].height, maxSize, header.number)
    ensures Stored(s.headers, header) ==> (Pruned(s, maxSize, HashOf(header)) <==> Doomed(s.refs[0].height, maxSize, header.number))
  {
  }

  lemma CleanKeepsIndexed(s: ChainData, maxSize: nat)
    requires Indexed(s.headers, s.metadata)
    ensures Indexed(Clean(s, maxSize).headers, Clean(s, maxSize).metadata)
  {
    if s.refs != [] && |s.headers| >= maxSize {
      var s' := Clean(s, maxSize);
      forall h | h in s'.metadata ensures h.HashOf? && s'.metadata[h].height == h.header.number && Stored(s'.headers, h.header) {
        CleanKeepsStored(s, maxSize, h.header);
      }
      forall n, x: Header | n in s'.headers && x in s'.headers[n] ensures x.number == n && HashOf(x) in s'.metadata {
        assert Stored(s'.headers, x);
        CleanKeepsStored(s, maxSize, x);
      }
    }
  }

  /** No remaining ref is pruned: position i is at most i below the head, and only maxSize positions remain. */
  lemma CleanKeepsRefs(s: ChainData, maxSize: nat, i: nat)
    requires Filed(s.headers) && GoodRefs(s.headers, s.refs) && Shallow(s.refs) && maxSize < TWO_63
    requires s.refs != [] && |s.headers| >= maxSize && i < |s.refs| && i < maxSize
    ensures GoodRef(Clean(s, maxSize).headers, s.refs[i])
  {
    assert GoodRef(s.headers, s.refs[i]);
    if Doomed(s.refs[0].height, maxSize, s.refs[i].height) {
      DoomedIsDeep(s.refs[0].height, maxSize, s.refs[i].height);
    }
    CleanKeepsStored(s, maxSize, s.refs[i].hash.header);
  }

  lemma CleanKeepsSameKeys(s: ChainData, maxSize: nat)
    requires SameKeys(s)
    ensures SameKeys(Clean(s, maxSize))
  {
  }

  lemma CleanKeepsGoodRefs(s: ChainData, maxSize: nat)
    requires Filed(s.headers) && GoodRefs(s.headers, s.refs) && Shallow(s.refs) && maxSize < TWO_63
    ensures GoodRefs(Clean(s, maxSize).headers, Clean(s, maxSize).refs)
  {
    var s' := Clean(s, maxSize);
    if s.refs != [] && |s.headers| >= maxSize {
      forall i | 0 <= i < |s'.refs| ensures GoodRef(s'.headers, s'.refs[i]) {
        CleanKeepsRefs(s, maxSize, i);
      }
    }
  }

  /** Pruning never drops anything a remaining ref needs. */
  lemma CleanKeepsConsistent(s: ChainData, maxSize: nat)
    requires Consistent(s) && Shallow(s.refs) && maxSize < TWO_63
    ensures Consistent(Clean(s, maxSize))
  {
    CleanKeepsIndexed(s, maxSize);
    CleanKeepsSameKeys(s, maxSize);
    CleanKeepsGoodRefs(s, maxSize);
  }

  /** The new heads are the hashes of the refs from i on, none of them sent yet, whatever the state. */
  lemma {:induction false} NewHeadsAreUnsentRefs(s: ChainData, i: nat, count: nat)
    ensures var heads := NewHeads(s, i, count).0;
            && (heads == [] || (i + |heads| <= count && i + |heads| <= |s.refs|))
            && (forall k :: 0 <= k < |heads| ==>
                  && HashOf(heads[k].header) == s.refs[i + k].hash
                  && HashOf(heads[k].header) in s.metadata && !s.metadata[HashOf(heads[k].header)].sentToBDN)
    decreases count - i
  {
    if i < count && i < |s.refs| {
      NewHeadsAreUnsentRefs(s, i + 1, count);
      var heads, rest := NewHeads(s, i, count).0, NewHeads(s, i + 1, count).0;
      forall k | 0 < k < |heads| ensures heads[k] == rest[k - 1] {
      }
    }
  }

  /** On a consistent chain nothing is missing: the new heads stop early only at a block already sent. */
  lemma {:induction false} NewHeadsComplete(s: ChainData, i: nat, count: nat)
    requires s.metadata.Keys == s.bodies.Keys && GoodRefs(s.headers, s.refs)
    requires forall k :: 0 <= k < |s.refs| ==> s.refs[k].hash in s.metadata
    requires i <= count <= |s.refs|
    ensures var (heads, err) := NewHeads(s, i, count);
            && err == NoError && i + |heads| <= count
            && (i + |heads| < count ==> s.metadata[s.refs[i + |heads|].hash].sentToBDN)
    decreases count - i
  {
    if i < count {
      assert GoodRef(s.headers, s.refs[i]);
      NewHeadsComplete(s, i + 1, count);
    }
  }
}
