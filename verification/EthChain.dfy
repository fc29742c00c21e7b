/** The chain object: its fields are reassigned step by step, as the values of ChainStore say. */
module EthChain {
  import opened GoInts
  import opened EthTypes
  import opened ForkChoice
  import Store = ChainStore
  import opened ChainStore
  import Queries = HeaderQueries

  /** Some header in the lists at these heights, below the pruning minimum, has this hash. */
  ghost predicate PrunedAmong(items: HeaderStore, heights: set<U64>, head: U64, maxSize: nat, hash: Hash) {
    exists n, x :: n in heights && n in items && Doomed(head, maxSize, n) && x in items[n] && hash == HashOf(x)
  }

  class Chain {
    const cfg: Config
    var chainState: seq<BlockRef>
    var heightToBlockHeaders: HeaderStore
    var blockHashToMetadata: map<Hash, Metadata>
    var blockHashToBody: map<Hash, Body>
    var blockHashToDifficulty: map<Hash, nat>

    function State(): ChainData
      reads this
    {
      ChainData(chainState, heightToBlockHeaders, blockHashToMetadata, blockHashToBody, blockHashToDifficulty)
    }

    constructor (cfg: Config)
      ensures State() == EMPTY_CHAIN && this.cfg == cfg
    {
      this.cfg := cfg;
      chainState, heightToBlockHeaders := [], map[];
      blockHashToMetadata, blockHashToBody, blockHashToDifficulty := map[], map[], map[];
    }

    method GetBlockHeader(height: U64, hash: Hash) returns (r: Option<Header>)
      ensures r == FindHeader(heightToBlockHeaders, height, hash)
    {
      if height !in heightToBlockHeaders {
        return None;
      }
      var headers := heightToBlockHeaders[height];
      for i := 0 to |headers|
        invariant forall j :: 0 <= j < i ==> HashOf(headers[j]) != hash
      {
        if HashOf(headers[i]) == hash {
          return Some(headers[i]);
        }
      }
      return None;
    }

    method StoreBlockMetadata(hash: Hash, height: U64, confirmed: bool, confirmedMsgSent: bool)
      modifies this`blockHashToMetadata
      ensures blockHashToMetadata == StoreMetadata(old(blockHashToMetadata), hash, height, confirmed, confirmedMsgSent)
    {
      if hash !in blockHashToMetadata {
        blockHashToMetadata := blockHashToMetadata[hash := Metadata(height, false, confirmed, confirmedMsgSent)];
      } else {
        var bm := blockHashToMetadata[hash];
        bm := bm.(confirmed := bm.confirmed || confirmed);
        bm := bm.(confirmedMsgSent := bm.confirmedMsgSent || confirmedMsgSent);
        blockHashToMetadata := blockHashToMetadata[hash := bm];
      }
    }

    method StoreBlock(block: Block, difficulty: Option<nat>, source: BlockSource)
      modifies this`heightToBlockHeaders, this`blockHashToMetadata, this`blockHashToBody, this`blockHashToDifficulty
      ensures State() == Store.StoreBlock(old(State()), block, difficulty, source)
    {
      var height, hash := block.header.number, HashOf(block.header);
      if height !in heightToBlockHeaders {
        heightToBlockHeaders := heightToBlockHeaders[height := [block.header]];
      } else {
        heightToBlockHeaders := heightToBlockHeaders[height := heightToBlockHeaders[height] + [block.header]];
      }
      assert [] + [block.header] == [block.header];
      assert heightToBlockHeaders == StoreHeader(old(heightToBlockHeaders), block.header);
      StoreBlockMetadata(hash, height, source == Blockchain, false);
      blockHashToBody := blockHashToBody[hash := block.body];
      if difficulty.Some? {
        blockHashToDifficulty := blockHashToDifficulty[hash := difficulty.value];
      }
    }

    method AddBlock(block: Block, difficulty: Option<nat>, source: BlockSource) returns (n: nat)
      modifies this
      ensures (State(), n) == Store.AddBlock(cfg, old(State()), block, difficulty, source)
    {
      var height, hash, parentHash := block.header.number, HashOf(block.header), block.header.parentHash;
      if hash in blockHashToMetadata && hash in blockHashToBody {
        StoreBlockMetadata(hash, height, source == Blockchain, false);
      } else {
        StoreBlock(block, difficulty, source);
      }
      if source == BDN {
        return 0;
      }
      n := UpdateChainState(height, hash, parentHash);
    }

    method HasBlock(hash: Hash) returns (stored: bool)
      ensures stored == Store.HasBlock(State(), hash)
    {
      return hash in blockHashToMetadata && hash in blockHashToBody;
    }

    method ValidateBlock(hash: Hash, height: int) returns (v: Validation)
      ensures forall number: U64 :: height == ToInt64(number) ==> v == Validate(State(), hash, number)
    {
      var hasBlock := HasBlock(hash);
      if hasBlock && blockHashToMetadata[hash].sentToBDN && blockHashToMetadata[hash].confirmed {
        return AlreadySeen;
      }
      var head: U64 := if chainState == [] then 0 else chainState[0].height;
      var maxBlockNumber := ToU64(head + MAX_FUTURE_BLOCK_NUMBER);
      if head != 0 && height > ToInt64(maxBlockNumber) {
        return TooFarAhead;
      }
      return Acceptable;
    }

    method ConfirmBlock(hash: Hash) returns (n: nat)
      modifies this`chainState, this`blockHashToMetadata
      ensures (State(), n) == Store.ConfirmBlock(cfg, old(State()), hash)
    {
      if hash !in blockHashToMetadata {
        return 0;
      }
      var bm := blockHashToMetadata[hash].(confirmed := true);
      blockHashToMetadata := blockHashToMetadata[hash := bm];
      var header := GetBlockHeader(bm.height, hash);
      if header.None? {
        return 0;
      }
      n := UpdateChainState(bm.height, hash, header.value.parentHash);
    }

    method UpdateChainState(height: U64, hash: Hash, parentHash: Hash) returns (n: nat)
      modifies this`chainState
      ensures (chainState, n) == Update(cfg, old(chainState), heightToBlockHeaders, height, hash, parentHash)
    {
      if chainState == [] {
        chainState := chainState + [BlockRef(height, hash)];
        assert chainState == [BlockRef(height, hash)];
        return 1;
      }
      var chainHead := chainState[0];
      if ToU64(chainHead.height + 1) == height && chainHead.hash == parentHash {
        chainState := [BlockRef(height, hash)] + chainState;
      }
      if height <= chainHead.height {
        return 0;
      }

      var walk := FillMissing(chainHead.height, height, hash);
      match walk
      case Missing => return 0;
      case Jump(missingEntries) =>
        assert missingEntries + [] == missingEntries;
        chainState := missingEntries;
        return |missingEntries|;
      case Met(missingEntries, headHash) =>
        if headHash == chainHead.hash {
          chainState := missingEntries + chainState;
          return |missingEntries|;
        }
        n := Reorganize(chainHead.height, headHash, missingEntries);
    }

    /** The walk of UpdateChainState from a new block down to the height of the old head. */
    method FillMissing(base: U64, height: U64, hash: Hash) returns (walk: Walk)
      requires base <= height
      ensures walk == FillGap(heightToBlockHeaders, base, cfg.minValidChain, height, hash, [])
    {
      var missingEntries: seq<BlockRef> := [];
      var headHeight: U64, headHash := height, hash;
      while headHeight > base
        invariant headHeight >= base
        invariant FillGap(heightToBlockHeaders, base, cfg.minValidChain, headHeight, headHash, missingEntries)
               == FillGap(heightToBlockHeaders, base, cfg.minValidChain, height, hash, [])
      {
        var headHeader := GetBlockHeader(headHeight, headHash);
        if headHeader.None? {
          return Missing;
        }
        missingEntries := missingEntries + [BlockRef(headHeight, headHash)];
        headHash := headHeader.value.parentHash;
        if |missingEntries| >= cfg.minValidChain {
          return Jump(missingEntries);
        }
        headHeight := headHeight - 1;
      }
      return Met(missingEntries, headHash);
    }

    /** The last part of UpdateChainState: look back for the ref the new branch stands on. */
    method Reorganize(height: U64, hash: Hash, entries: seq<BlockRef>) returns (n: nat)
      modifies this`chainState
      ensures match LookBack(heightToBlockHeaders, old(chainState), cfg.maxReorg, 0, height, hash, entries)
              case Unreconciled => n == 0 && chainState == old(chainState)
              case Reconciled(added, kept) => n == |added| && chainState == added + kept
    {
      var missingEntries, headHeight: U64, headHash := entries, height, hash;
      var i := 0;
      while i < |chainState|
        invariant i <= |chainState| && chainState == old(chainState)
        invariant LookBack(heightToBlockHeaders, chainState, cfg.maxReorg, i, headHeight, headHash, missingEntries)
               == LookBack(heightToBlockHeaders, chainState, cfg.maxReorg, 0, height, hash, entries)
      {
        if headHash == chainState[i].hash {
          break;
        }
        var headHeader := GetBlockHeader(headHeight, headHash);
        if headHeader.None? {
          return 0;
        }
        missingEntries := missingEntries + [BlockRef(headHeight, headHash)];
        headHash := headHeader.value.parentHash;
        headHeight := ToU64(headHeight - 1);
        if i + 1 >= cfg.maxReorg {
          assert missingEntries + [] == missingEntries;
          chainState := missingEntries;
          return |missingEntries|;
        }
        i := i + 1;
      }
      chainState := missingEntries + chainState[i..];
      return |missingEntries|;
    }

    method MarkSentToBDN(hash: Hash)
      modifies this`blockHashToMetadata
      ensures blockHashToMetadata == MarkSent(old(blockHashToMetadata), hash)
    {
      if hash in blockHashToMetadata {
        blockHashToMetadata := blockHashToMetadata[hash := blockHashToMetadata[hash].(sentToBDN := true)];
      }
    }

    method GetNewHeadsForBDN(count: nat) returns (heads: seq<BlockInfo>, err: HeadsError)
      ensures (heads, err) == NewHeads(State(), 0, count)
    {
      heads := [];
      ghost var s := State();
      ghost var all := NewHeads(s, 0, count);
      Unmoved([], all.0);
      for i := 0 to count
        invariant all == (heads + NewHeads(s, i, count).0, NewHeads(s, i, count).1)
      {
        Unmoved(heads, []);
        if |chainState| <= i {
          return heads, ShortChain;
        }
        var head := chainState[i];
        if head.hash !in blockHashToMetadata {
          return heads, Inconsistent;
        }
        if blockHashToMetadata[head.hash].sentToBDN {
          return heads, NoError;
        }
        var header := GetBlockHeader(head.height, head.hash);
        if header.None? || head.hash !in blockHashToBody {
          return heads, Inconsistent;
        }
        var difficulty := if head.hash in blockHashToDifficulty then Some(blockHashToDifficulty[head.hash]) else None;
        var info := BlockInfo(header.value, blockHashToBody[head.hash], difficulty);
        MoveOne(heads, info, NewHeads(s, i + 1, count).0);
        heads := heads + [info];
      }
      Unmoved(heads, []);
      return heads, NoError;
    }

    method GetHeaderAtHeight(height: U64) returns (r: Lookup)
      ensures r == HeaderAtHeight(chainState, heightToBlockHeaders, height)
    {
      if chainState == [] {
        return NoHeader;
      }
      var requestedIndex := ToInt64(ToU64(chainState[0].height - height));
      if requestedIndex < 0 {
        return Beyond;
      }
      if requestedIndex >= |chainState| {
        return NoHeader;
      }
      var header := GetBlockHeader(height, chainState[requestedIndex].hash);
      return if header.None? then NoHeader else Found(header.value);
    }

    method BlockAtDepth(depth: nat) returns (r: DepthResult)
      ensures r == Store.BlockAtDepth(State(), depth)
    {
      if |chainState| <= depth {
        return DepthError;
      }
      var ref := chainState[depth];
      var header := GetHeaderAtHeight(ref.height);
      if header.NoHeader? || ref.hash !in blockHashToBody {
        return DepthError;
      }
      return if header.Beyond? then NilHeader else DepthBlock(header.header, blockHashToBody[ref.hash]);
    }

    method GetHeaders(start: Queries.HashOrNumber, count: nat, skip: int,
            reverse: bool) returns (r: Queries.QueryResult)
      ensures r == Queries.GetHeaders(State(), start, count, skip, reverse)
    {
      var originHeight: U64 := start.number;
      var requested: seq<Header> := [];
      if start.number > 0 {
        if originHeight > (if chainState == [] then 0 else chainState[0].height) {
          return Queries.Failed(Queries.ErrFutureHeaders);
        }
        if chainState != [] && originHeight < chainState[|chainState| - 1].height {
          return Queries.Failed(Queries.ErrAncientHeaders);
        }
        var origin := GetHeaderAtHeight(originHeight);
        if origin.NoHeader? {
          return Queries.Failed(Queries.ErrNoHeader);
        }
        if origin.Found? {
          requested := requested + [origin.header];
        }
      } else if start.hash != ZERO_HASH {
        if start.hash !in blockHashToMetadata {
          return Queries.Failed(Queries.ErrUnknownHash);
        }
        originHeight := blockHashToMetadata[start.hash].height;
        var origin := GetBlockHeader(originHeight, start.hash);
        if origin.None? {
          return Queries.Failed(Queries.ErrNoHeader);
        }
        requested := requested + [origin.value];
      } else {
        return Queries.Failed(Queries.ErrInvalidRequest);
      }
      assert Queries.FindOrigin(State(), start) == Queries.At(originHeight, requested);
      r := Continue(count, ToInt64(if reverse then -(skip + 1) else skip + 1), originHeight, requested);
    }

    /** The loop of GetHeaders, from its origin on. */
    method Continue(count: nat, increment: int, originHeight: U64, origin: seq<Header>) returns (r: Queries.QueryResult)
      ensures r == Queries.Continue(chainState, heightToBlockHeaders, count, increment, originHeight, origin)
    {
      if count == 1 {
        return Queries.Headers(origin);
      }
      var requested := origin;
      var height := ToInt64(originHeight + increment);
      ghost var all := Queries.Collect(chainState, heightToBlockHeaders, count, increment, height, requested);
      while |requested| < count
        invariant all == Queries.Collect(chainState, heightToBlockHeaders, count, increment, height, requested)
      {
        var header := GetHeaderAtHeight(ToU64(height));
        if header.NoHeader? {
          return Queries.Failed(Queries.ErrNoHeader);
        }
        if header.Beyond? {
          break;
        }
        requested := requested + [header.header];
        height := ToInt64(height + increment);
      }
      return Queries.Headers(requested);
    }

    method PruneHash(hash: Hash)
      modifies this`blockHashToMetadata, this`blockHashToBody, this`blockHashToDifficulty
      ensures blockHashToMetadata == old(blockHashToMetadata) - {hash}
      ensures blockHashToBody == old(blockHashToBody) - {hash}
      ensures blockHashToDifficulty == old(blockHashToDifficulty) - {hash}
    {
      blockHashToMetadata := blockHashToMetadata - {hash};
      blockHashToBody := blockHashToBody - {hash};
      blockHashToDifficulty := blockHashToDifficulty - {hash};
    }

    /** Prunes every header of one list. */
    method PruneHeaders(headers: seq<Header>) returns (ghost gone: set<Hash>)
      modifies this`blockHashToMetadata, this`blockHashToBody, this`blockHashToDifficulty
      ensures blockHashToMetadata == old(blockHashToMetadata) - gone
      ensures blockHashToBody == old(blockHashToBody) - gone
      ensures blockHashToDifficulty == old(blockHashToDifficulty) - gone
      ensures forall h :: h in gone <==> exists x :: x in headers && h == HashOf(x)
    {
      gone := {};
      for i := 0 to |headers|
        invariant blockHashToMetadata == old(blockHashToMetadata) - gone
        invariant blockHashToBody == old(blockHashToBody) - gone
        invariant blockHashToDifficulty == old(blockHashToDifficulty) - gone
        invariant forall h :: h in gone <==> exists x :: x in headers[..i] && h == HashOf(x)
      {
        PruneHash(HashOf(headers[i]));
        gone := gone + {HashOf(headers[i])};
        assert headers[..i + 1] == headers[..i] + [headers[i]];
      }
      assert headers[..|headers|] == headers;
    }

    /** Prunes one height, if it lies below the minimum. */
    method PruneHeight(items: HeaderStore, height: U64, head: U64, maxSize: nat) returns (ghost now: set<Hash>)
      requires height in items
      modifies this`heightToBlockHeaders, this`blockHashToMetadata, this`blockHashToBody, this`blockHashToDifficulty
      ensures heightToBlockHeaders == if Doomed(head, maxSize, height) then old(heightToBlockHeaders) - {height} else old(heightToBlockHeaders)
      ensures blockHashToMetadata == old(blockHashToMetadata) - now
      ensures blockHashToBody == old(blockHashToBody) - now
      ensures blockHashToDifficulty == old(blockHashToDifficulty) - now
      ensures forall h :: h in now <==> Doomed(head, maxSize, height) && exists x :: x in items[height] && h == HashOf(x)
    {
      var minHeight := ToInt64(ToInt64(head) - maxSize + 1);
      now := {};
      if height < TWO_63 && height < minHeight {
        heightToBlockHeaders := heightToBlockHeaders - {height};
        now := PruneHeaders(items[height]);
      }
    }

    /** Prunes every height below the minimum, in whatever order the map is walked. */
    method PruneHeights(head: U64, maxSize: nat) returns (ghost gone: set<Hash>)
      modifies this`heightToBlockHeaders, this`blockHashToMetadata, this`blockHashToBody, this`blockHashToDifficulty
      ensures heightToBlockHeaders == map n | n in old(heightToBlockHeaders) && !Doomed(head, maxSize, n) :: old(heightToBlockHeaders)[n]
      ensures blockHashToMetadata == old(blockHashToMetadata) - gone
      ensures blockHashToBody == old(blockHashToBody) - gone
      ensures blockHashToDifficulty == old(blockHashToDifficulty) - gone
      ensures forall h :: h in gone <==> PrunedAmong(old(heightToBlockHeaders), old(heightToBlockHeaders).Keys, head, maxSize, h)
    {
      var items := heightToBlockHeaders;
      var todo := items.Keys;
      gone := {};
      while todo != {}
        invariant todo <= items.Keys
        invariant heightToBlockHeaders == Remaining(items, todo, head, maxSize)
        invariant blockHashToMetadata == old(blockHashToMetadata) - gone
        invariant blockHashToBody == old(blockHashToBody) - gone
        invariant blockHashToDifficulty == old(blockHashToDifficulty) - gone
        invariant forall h :: h in gone <==> PrunedAmong(items, items.Keys - todo, head, maxSize, h)
      {
        var height :| height in todo;
        RemainingStep(items, todo, height, head, maxSize);
        ghost var now := PruneHeight(items, height, head, maxSize);
        PrunedStep(items, items.Keys - todo, height, head, maxSize, gone, now);
        assert items.Keys - (todo - {height}) == items.Keys - todo + {height};
        todo := todo - {height};
        gone := gone + now;
      }
      assert items.Keys - todo == items.Keys;
      assert heightToBlockHeaders == Remaining(items, {}, head, maxSize);
    }

    method Clean(maxSize: nat)
      modifies this
      ensures State() == Store.Clean(old(State()), maxSize)
    {
      if chainState == [] || |heightToBlockHeaders| < maxSize {
        return;
      }
      ghost var gone := PruneHeights(chainState[0].height, maxSize);
      if |chainState| > maxSize {
        chainState := chainState[..maxSize];
      }
      PrunedAll(old(State()), maxSize, gone, old(blockHashToMetadata));
      PrunedAll(old(State()), maxSize, gone, old(blockHashToBody));
      PrunedAll(old(State()), maxSize, gone, old(blockHashToDifficulty));
    }
  }

  lemma Unmoved<T>(a: seq<T>, b: seq<T>)
    ensures a == [] || b == [] ==> a + b == if a == [] then b else a
  {
  }

  lemma MoveOne<T>(a: seq<T>, x: T, b: seq<T>)
    ensures a + ([x] + b) == (a + [x]) + b
  {
  }

  /** The lists left when all heights but those still to do have been looked at. */
  ghost function Remaining(items: HeaderStore, todo: set<U64>, head: U64, maxSize: nat): HeaderStore {
    map n | n in items && (n in todo || !Doomed(head, maxSize, n)) :: items[n]
  }

  lemma RemainingStep(items: HeaderStore, todo: set<U64>, height: U64, head: U64, maxSize: nat)
    requires height in todo
    ensures Remaining(items, todo - {height}, head, maxSize)
            == if Doomed(head, maxSize, height) then Remaining(items, todo, head, maxSize) - {height} else Remaining(items, todo, head, maxSize)
  {
  }

  lemma PrunedStep(items: HeaderStore, done: set<U64>, height: U64, head: U64, maxSize: nat, gone: set<Hash>,
          now: set<Hash>)
    requires height in items
    requires forall h :: h in gone <==> PrunedAmong(items, done, head, maxSize, h)
    requires forall h :: h in now <==> Doomed(head, maxSize, height) && exists x :: x in items[height] && h == HashOf(x)
    ensures forall h :: h in gone + now <==> PrunedAmong(items, done + {height}, head, maxSize, h)
  {
  }

  lemma PrunedAll<V>(s: ChainData, maxSize: nat, gone: set<Hash>, m: map<Hash, V>)
    requires s.refs != []
    requires forall h :: h in gone <==> PrunedAmong(s.headers, s.headers.Keys, s.refs[0].height, maxSize, h)
    ensures (map h | h in m && !Pruned(s, maxSize, h) :: m[h]) == m - gone
  {
  }

}
