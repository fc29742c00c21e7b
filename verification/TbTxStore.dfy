/** The store as objects: transactions changed in place, two maps, and the shared history. */
module TbTxStore {
  import opened WireBytes
  import opened HashHistory
  import opened TxStore
  import opened TxCleanup

  class TbTransaction {
    const hash: TxHash
    var content: Bytes
    var txIDs: seq<TxID>
    var addTime: int
    var networkNum: nat

    function Value(): Tx
      reads this
    {
      Tx(content, txIDs, addTime, networkNum)
    }

    constructor (hash: TxHash, networkNum: nat, timestamp: int)
      ensures this.hash == hash && Value() == NewTx(networkNum, timestamp)
    {
      this.hash, this.networkNum, addTime := hash, networkNum, timestamp;
      content, txIDs := [], [];
    }

    method AddTxID(txID: TxID) returns (isNew: bool)
      modifies this`txIDs
      ensures Value() == WithID(old(Value()), txID) && isNew == TakesID(old(Value()), txID)
    {
      if txID == NO_ID {
        return false;
      }
      for i := 0 to |txIDs|
        invariant txID !in txIDs[..i]
      {
        if txID == txIDs[i] {
          return false;
        }
      }
      txIDs := txIDs + [txID];
      return true;
    }

    method SetContent(newContent: Bytes) returns (updated: bool)
      modifies this`content
      ensures Value() == WithContent(old(Value()), newContent) && updated == TakesContent(old(Value()), newContent)
    {
      if |content| == 0 && |newContent| > 0 {
        content := newContent;
        return true;
      }
      return false;
    }
  }

  class TbTxStore {
    var hashToContent: map<TxHash, TbTransaction>
    var txIDToHash: map<TxID, TxHash>
    const seenTxs: HashHistory
    const settings: Settings

    // the stored transactions as values
    ghost var txs: map<TxHash, Tx>

    /** Each hash leads to its own transaction object. */
    ghost predicate Valid()
      reads this`hashToContent, this`txs, hashToContent.Values
    {
      && hashToContent.Keys == txs.Keys
      && forall hash :: hash in hashToContent ==> hashToContent[hash].hash == hash && hashToContent[hash].Value() == txs[hash]
    }

    ghost function State(): Store
      reads this`txs, this`txIDToHash, seenTxs
    {
      Store(txs, txIDToHash, seenTxs.data)
    }

    constructor (settings: Settings, seenTxs: HashHistory)
      ensures Valid() && this.settings == settings && this.seenTxs == seenTxs
      ensures State() == EMPTY_STORE.(seen := seenTxs.data)
    {
      this.settings, this.seenTxs := settings, seenTxs;
      hashToContent, txIDToHash, txs := map[], map[], map[];
    }

    method RefreshSeenTx(now: int, hash: TxHash) returns (live: bool)
      modifies seenTxs
      ensures seenTxs.data == Refreshed(settings, old(seenTxs.data), now, hash)
      ensures live == Live(old(seenTxs.data), hash, now)
    {
      live := seenTxs.Exists(hash, now);
      if live {
        seenTxs.Add(hash, now, settings.timeToAvoidReEntry);
      }
    }

    method Add(now: int, hash: TxHash, content: Bytes, txID: TxID, networkNum: nat, timestamp: int, nextID: TxID)
      returns (result: Result, transaction: TbTransaction)
      requires Valid() && (txID != NO_ID || content != [])
      modifies this, seenTxs, hashToContent.Values
      ensures Valid()
      ensures (State(), result) == TxStore.Add(settings, old(State()), now, hash, content, txID, networkNum, timestamp, nextID)
      ensures transaction.hash == hash && !result.reprocess
      ensures if TooOld(settings, now, timestamp) || result.alreadySeen
              then fresh(transaction) && transaction.Value() == NewTx(networkNum, timestamp)
              else hash in hashToContent && hashToContent[hash] == transaction
    {
      result := NOTHING_NEW;
      if now - timestamp > settings.maxTxAge {
        transaction := new TbTransaction(hash, networkNum, timestamp);
        return;
      }
      var live := RefreshSeenTx(now, hash);
      if live {
        if txID != NO_ID {
          seenTxs.Remove(hash);
          assert seenTxs.data == old(seenTxs.data) - {hash};
        } else {
          transaction := new TbTransaction(hash, networkNum, timestamp);
          result := NOTHING_NEW.(alreadySeen := true);
          return;
        }
      }
      assert State() == old(State()).(seen := if live then old(seenTxs.data) - {hash} else old(seenTxs.data));
      result, transaction := Enter(hash, content, txID, networkNum, timestamp, nextID);
    }

    method Enter(hash: TxHash, content: Bytes, txID: TxID, networkNum: nat, timestamp: int, nextID: TxID)
      returns (result: Result, transaction: TbTransaction)
      requires Valid()
      modifies this`hashToContent, this`txIDToHash, this`txs, hashToContent.Values
      ensures Valid()
      ensures (State(), result) == Put(old(State()), hash, content, txID, networkNum, timestamp, nextID)
      ensures hash in hashToContent && hashToContent[hash] == transaction
    {
      var id := txID;
      var nextIDUsed := NO_ID;
      var newTx;
      newTx, transaction := SetIfAbsent(hash, networkNum, timestamp);
      ghost var tx := transaction.Value();
      if newTx && id == NO_ID {
        id := nextID;
        nextIDUsed := id;
      }
      var newTxID, newContent := Fill(hash, id, content);
      MapPutTwice(old(txs), hash, tx, WithContent(WithID(tx, id), content));
      result := Result(newTx, newContent, newTxID, false, false, nextIDUsed, false);
    }

    /** Giving a stored transaction an ID and content, whichever it lacks. */
    method Fill(hash: TxHash, id: TxID, content: Bytes) returns (newTxID: bool, newContent: bool)
      requires Valid() && hash in hashToContent
      modifies hashToContent[hash], this`txIDToHash, this`txs
      ensures Valid()
      ensures var tx := old(txs)[hash];
              && newTxID == TakesID(tx, id) && newContent == TakesContent(tx, content)
              && txs == old(txs)[hash := WithContent(WithID(tx, id), content)]
              && txIDToHash == if newTxID then old(txIDToHash)[id := hash] else old(txIDToHash)
    {
      var transaction := hashToContent[hash];
      assert forall other :: other in hashToContent && hashToContent[other] == transaction ==> other == hash;
      newTxID := transaction.AddTxID(id);
      newContent := transaction.SetContent(content);
      if newTxID {
        txIDToHash := txIDToHash[id := transaction.hash];
      }
      txs := txs[hash := transaction.Value()];
    }

    /** The transaction stored under a hash; a new one if there is none. */
    method SetIfAbsent(hash: TxHash, networkNum: nat, timestamp: int) returns (newTx: bool, transaction: TbTransaction)
      requires Valid()
      modifies this`hashToContent, this`txs
      ensures Valid() && hash in hashToContent && hashToContent == old(hashToContent)[hash := transaction]
      ensures newTx == (hash !in old(hashToContent)) && (if newTx then fresh(transaction) else transaction == old(hashToContent)[hash])
      ensures txs == old(txs)[hash := if newTx then NewTx(networkNum, timestamp) else old(txs)[hash]]
    {
      newTx := hash !in hashToContent;
      if newTx {
        transaction := new TbTransaction(hash, networkNum, timestamp);
        hashToContent := hashToContent[hash := transaction];
        txs := txs[hash := transaction.Value()];
      } else {
        transaction := hashToContent[hash];
      }
    }

    method UnindexAll(ids: seq<TxID>)
      modifies this`txIDToHash
      ensures txIDToHash == old(txIDToHash) - Listed(ids)
    {
      for i := 0 to |ids|
        invariant txIDToHash == old(txIDToHash) - Listed(ids[..i])
      {
        assert Listed(ids[..i + 1]) == Listed(ids[..i]) + {ids[i]};
        txIDToHash := txIDToHash - {ids[i]};
      }
      assert ids[..|ids|] == ids;
    }

    method Protect(now: int, hash: TxHash, protection: Protection)
      modifies seenTxs
      ensures var expiry := ProtectedUntil(settings, now, protection);
              seenTxs.data == if expiry.Never? then old(seenTxs.data) else old(seenTxs.data)[hash := expiry.time]
    {
      match protection
      case NoReEntryProtection =>
      case ShortReEntryProtection => seenTxs.Add(hash, now, SHORT_PROTECTION);
      case FullReEntryProtection => seenTxs.Add(hash, now, settings.timeToAvoidReEntry);
    }

    method Remove(now: int, hash: TxHash, protection: Protection)
      requires Valid()
      modifies this`hashToContent, this`txIDToHash, this`txs, seenTxs
      ensures Valid() && State() == Without(settings, old(State()), now, {hash}, protection)
      ensures hashToContent == old(hashToContent) - {hash}
    {
      ghost var s := State();
      if hash in hashToContent {
        WithoutOne(settings, s, now, hash, protection);
        var tx := hashToContent[hash];
        hashToContent, txs := hashToContent - {hash}, txs - {hash};
        UnindexAll(tx.txIDs);
        Protect(now, hash, protection);
      } else {
        WithoutNone(settings, s, now, {hash}, protection);
      }
    }

    method RemoveHashes(now: int, hashes: seq<TxHash>, protection: Protection)
      requires Valid()
      modifies this`hashToContent, this`txIDToHash, this`txs, seenTxs
      ensures Valid() && State() == Without(settings, old(State()), now, Hashes(hashes), protection)
    {
      ghost var s := State();
      WithoutNone(settings, s, now, {}, protection);
      ghost var gone := {};
      for i := 0 to |hashes|
        invariant Valid() && gone == Hashes(hashes[..i]) && State() == Without(settings, s, now, gone, protection)
      {
        Remove(now, hashes[i], protection);
        WithoutTwice(settings, s, now, gone, {hashes[i]}, protection);
        gone := gone + {hashes[i]};
      }
      assert hashes[..|hashes|] == hashes;
    }

    method RemoveTxIDs(now: int, txIDs: seq<TxID>, protection: Protection)
      requires Valid()
      modifies this`hashToContent, this`txIDToHash, this`txs, seenTxs
      ensures Valid() && State() == Without(settings, old(State()), now, Indexed(old(State()), txIDs), protection)
    {
      var hashesToRemove := [];
      for i := 0 to |txIDs|
        invariant Hashes(hashesToRemove) == Indexed(State(), txIDs[..i])
      {
        assert txIDs[..i + 1] == txIDs[..i] + [txIDs[i]];
        if txIDs[i] in txIDToHash {
          hashesToRemove := hashesToRemove + [txIDToHash[txIDs[i]]];
          assert Indexed(State(), txIDs[..i + 1]) == Indexed(State(), txIDs[..i]) + {txIDToHash[txIDs[i]]};
        }
      }
      assert txIDs[..|txIDs|] == txIDs;
      RemoveHashes(now, hashesToRemove, protection);
    }

    /** The transactions as one pass over the map meets them. */
    ghost predicate Walks(items: seq<TbTransaction>)
      reads this`hashToContent
    {
      && (forall i :: 0 <= i < |items| ==> items[i].hash in hashToContent && hashToContent[items[i].hash] == items[i])
      && Distinct(Walk(items)) && Hashes(Walk(items)) == hashToContent.Keys
    }

    static function Walk(items: seq<TbTransaction>): (r: seq<TxHash>)
      ensures |r| == |items| && forall i :: 0 <= i < |items| ==> r[i] == items[i].hash
    {
      seq(|items|, i requires 0 <= i < |items| => items[i].hash)
    }

    method IterBuffered() returns (items: seq<TbTransaction>)
      requires Valid()
      ensures Walks(items)
    {
      items := [];
      ghost var walk := [];
      var content := hashToContent;
      var left := content.Keys;
      while left != {}
        invariant left <= content.Keys && Hashes(walk) == content.Keys - left
        invariant |walk| == |items| && Distinct(walk)
        invariant forall i :: 0 <= i < |items| ==> walk[i] in content && content[walk[i]] == items[i]
        decreases |left|
      {
        var hash :| hash in left;
        LeftOneLess(content.Keys, left, hash);
        NotWalked(walk, hash);
        DistinctOneMore(walk, hash);
        HashesOneMore(walk, hash);
        items := items + [content[hash]];
        walk := walk + [hash];
        left := left - {hash};
      }
      assert Walk(items) == walk;
    }

    method CollectAges(now: int, items: seq<TbTransaction>) returns (ages: map<nat, seq<int>>)
      requires Valid() && Walks(items)
      ensures (forall hash :: hash in Walk(items) ==> hash in txs) && ages == AgesAlong(State(), now, Walk(items))
    {
      ghost var s, walk := State(), Walk(items);
      ages := map[];
      for i := 0 to |items|
        invariant ages == AgesAlong(s, now, walk[..i])
      {
        assert walk[..i + 1][..i] == walk[..i] && s.txs[walk[i]] == items[i].Value();
        ages := AgeNoted(ages, items[i].networkNum, Seconds(now - items[i].addTime));
      }
      assert walk[..|items|] == walk;
    }

    /** The network's maximum age, from its ages in whole seconds. */
    method MaxAgeOf(ghost s: Store, now: int, network: nat, ages: seq<int>) returns (maxAge: int)
      requires |ages| == |Members(s, network)|
      requires forall age :: CountBelow(ages, age) == |Younger(s, now, network, age)|
      ensures maxAge == MaxAge(settings, s, now, network)
    {
      if |ages| <= TX_STORE_MAX_SIZE {
        return settings.maxTxAge;
      }
      SortedAgeIsCutoff(s, now, network, ages);
      var sorted := SortInts(ages);
      maxAge := sorted[TX_STORE_KEPT - 1] * SECOND;
      if maxAge > settings.maxTxAge {
        maxAge := settings.maxTxAge;
      }
    }

    method MaxAges(ghost s: Store, now: int, ages: map<nat, seq<int>>,
            ghost walk: seq<TxHash>) returns (maxAges: map<nat, int>)
      requires Distinct(walk) && Hashes(walk) == s.txs.Keys
      requires (forall hash :: hash in walk ==> hash in s.txs) && ages == AgesAlong(s, now, walk)
      ensures forall hash :: hash in s.txs ==> s.txs[hash].network in maxAges
      ensures forall network :: network in maxAges ==> maxAges[network] == MaxAge(settings, s, now, network)
    {
      maxAges := map[];
      var networks := ages.Keys;
      while networks != {}
        invariant networks <= ages.Keys && maxAges.Keys == ages.Keys - networks
        invariant forall network :: network in maxAges ==> maxAges[network] == MaxAge(settings, s, now, network)
        decreases |networks|
      {
        var network :| network in networks;
        networks := networks - {network};
        AgesAlongAll(s, now, walk, network);
        var maxAge := MaxAgeOf(s, now, network, ages[network]);
        maxAges := maxAges[network := maxAge];
      }
      forall hash | hash in s.txs ensures s.txs[hash].network in ages {
        AgesAlongAll(s, now, walk, s.txs[hash].network);
        assert hash in Members(s, s.txs[hash].network);
      }
    }

    /** The count of what was taken out, and per network the IDs that its transactions listed. */
    method Clean(now: int) returns (cleaned: nat, cleanedTxIDs: map<nat, seq<TxID>>)
      requires Valid()
      modifies this`hashToContent, this`txIDToHash, this`txs, seenTxs
      ensures Valid() && State() == Cleaned(settings, old(State()), now)
      ensures cleaned == |DoomedSet(settings, old(State()), now)|
      ensures |old(State()).txs| == |State().txs| + cleaned
      ensures forall network ::
                var gone := GoneFrom(old(State()), DoomedSet(settings, old(State()), now), network);
                && (network in cleanedTxIDs <==> gone != {})
                && (network in cleanedTxIDs ==> Listed(cleanedTxIDs[network]) == IDsOf(old(State()), gone))
      ensures IDsOnce(old(State())) ==> forall network :: network in cleanedTxIDs ==> Distinct(cleanedTxIDs[network])
    {
      ghost var s := State();
      var items, maxAges := Survey(now);
      cleaned, cleanedTxIDs := RemoveAged(s, DoomedSet(settings, s, now), now, items, maxAges);
      CleanConserves(settings, s, now);
      forall network {
        IDsAlongAll(s, DoomedSet(settings, s, now), Walk(items), network);
      }
      if IDsOnce(s) {
        assert forall hash :: hash in Walk(items) ==> hash in Hashes(Walk(items));
        forall network | network in cleanedTxIDs ensures Distinct(cleanedTxIDs[network]) {
          IDsAlongOnce(s, DoomedSet(settings, s, now), Walk(items), network);
        }
      }
    }

    method Survey(now: int) returns (items: seq<TbTransaction>, maxAges: map<nat, int>)
      requires Valid()
      ensures Distinct(Walk(items)) && Hashes(Walk(items)) == txs.Keys
      ensures forall tx :: tx in items ==> Judged(State(), DoomedSet(settings, State(), now), now, maxAges, tx)
    {
      items := IterBuffered();
      var ages := CollectAges(now, items);
      maxAges := MaxAges(State(), now, ages, Walk(items));
      ShouldGoIffDoomed(settings, State(), now, maxAges);
    }

    /** The transaction is stored as s has it, its network has a maximum age, and it is doomed if it fails the test. */
    ghost predicate Judged(s: Store, doomed: set<TxHash>, now: int, maxAges: map<nat, int>, tx: TbTransaction)
      reads tx
    {
      && tx.hash in s.txs && s.txs[tx.hash] == tx.Value() && tx.networkNum in maxAges
      && (tx.hash in doomed <==> ShouldGo(settings, now, tx.Value(), maxAges[tx.networkNum]))
    }

    method RemoveAged(ghost s: Store, ghost doomed: set<TxHash>, now: int, items: seq<TbTransaction>,
            maxAges: map<nat, int>)
      returns (cleaned: nat, cleanedTxIDs: map<nat, seq<TxID>>)
      requires Valid() && s == State() && Distinct(Walk(items)) && doomed <= Hashes(Walk(items))
      requires forall tx :: tx in items ==> Judged(s, doomed, now, maxAges, tx)
      modifies this`hashToContent, this`txIDToHash, this`txs, seenTxs
      ensures Valid() && State() == Without(settings, s, now, doomed, FullReEntryProtection) && cleaned == |doomed|
      ensures cleanedTxIDs == IDsAlong(s, doomed, Walk(items))
    {
      ghost var walk := Walk(items);
      ChosenWhole(doomed, walk);
      WithoutNone(settings, s, now, {}, FullReEntryProtection);
      var cleanAge, cleanNoTxID := 0, 0;
      cleanedTxIDs := map[];
      for i := 0 to |items|
        invariant cleanAge + cleanNoTxID == |doomed * Hashes(walk[..i])|
        invariant Valid() && State() == Without(settings, s, now, doomed * Hashes(walk[..i]), FullReEntryProtection)
        invariant cleanedTxIDs == IDsAlong(s, doomed, walk[..i])
      {
        var aged, lacksID;
        aged, lacksID, cleanedTxIDs := CleanNext(s, doomed, walk, i, now, items[i], maxAges, cleanedTxIDs);
        if aged {
          cleanAge := cleanAge + 1;
        } else if lacksID {
          cleanNoTxID := cleanNoTxID + 1;
        }
      }
      assert walk[..|items|] == walk;
      cleaned := cleanAge + cleanNoTxID;
    }

    /** One step of the loop: the i-th transaction of the walk goes or stays, and its IDs are noted if it goes. */
    method CleanNext(ghost s: Store, ghost doomed: set<TxHash>, ghost walk: seq<TxHash>, ghost i: nat, now: int,
            tx: TbTransaction, maxAges: map<nat, int>, cleanedTxIDs: map<nat, seq<TxID>>)
      returns (aged: bool, lacksID: bool, noted: map<nat, seq<TxID>>)
      requires i < |walk| && walk[i] == tx.hash && Distinct(walk)
      requires Judged(s, doomed, now, maxAges, tx)
      requires Valid() && State() == Without(settings, s, now, doomed * Hashes(walk[..i]), FullReEntryProtection)
      requires cleanedTxIDs == IDsAlong(s, doomed, walk[..i])
      modifies this`hashToContent, this`txIDToHash, this`txs, seenTxs
      ensures Valid() && State() == Without(settings, s, now, doomed * Hashes(walk[..i + 1]), FullReEntryProtection)
      ensures noted == IDsAlong(s, doomed, walk[..i + 1])
      ensures |doomed * Hashes(walk[..i + 1])| == |doomed * Hashes(walk[..i])| + if aged || lacksID then 1 else 0
    {
      ChosenNext(doomed, walk, i);
      IDsNext(s, doomed, walk, i, tx.Value());
      aged, lacksID := RemoveIfAged(s, doomed * Hashes(walk[..i]), now, tx, maxAges[tx.networkNum]);
      noted := if aged || lacksID then IDsNoted(cleanedTxIDs, tx.networkNum, tx.txIDs) else cleanedTxIDs;
    }

    method RemoveIfAged(ghost s: Store, ghost gone: set<TxHash>, now: int, tx: TbTransaction,
            maxAge: int) returns (aged: bool, lacksID: bool)
      requires Valid() && State() == Without(settings, s, now, gone, FullReEntryProtection)
      modifies this`hashToContent, this`txIDToHash, this`txs, seenTxs
      ensures Valid() && (aged || lacksID <==> ShouldGo(settings, now, tx.Value(), maxAge))
      ensures State() == Without(settings, s, now, if aged || lacksID then gone + {tx.hash} else gone, FullReEntryProtection)
    {
      var txAge := now - tx.addTime;
      aged := txAge > maxAge;
      lacksID := !aged && txAge > settings.noTxIDAge && tx.txIDs == [];
      if aged || lacksID {
        WithoutTwice(settings, s, now, gone, {tx.hash}, FullReEntryProtection);
        Remove(now, tx.hash, FullReEntryProtection);
      }
    }

    method GetTxByID(txID: TxID) returns (found: bool, transaction: TbTransaction?)
      requires Valid()
      ensures found <==> TxStore.GetTxByID(State(), txID).Found?
      ensures found <==> transaction != null
      ensures found ==> TxStore.GetTxByID(State(), txID) == Found(transaction.hash, transaction.Value())
    {
      if txID in txIDToHash {
        var hash := txIDToHash[txID];
        if hash in hashToContent {
          return true, hashToContent[hash];
        }
        return false, null;
      }
      return false, null;
    }

    method Get(now: int, hash: TxHash) returns (ok: bool, transaction: TbTransaction?)
      requires Valid()
      modifies seenTxs
      ensures State() == old(State()).(seen := Refreshed(settings, old(State()).seen, now, hash)) && hashToContent == old(hashToContent)
      ensures ok <==> !Live(old(State()).seen, hash, now) && hash in old(State()).txs
      ensures ok <==> transaction != null
      ensures ok ==> hash in hashToContent && transaction == hashToContent[hash]
    {
      var live := RefreshSeenTx(now, hash);
      if live {
        return false, null;
      }
      if hash !in hashToContent {
        return false, null;
      }
      return true, hashToContent[hash];
    }

    method Known(now: int, hash: TxHash) returns (known: bool)
      requires Valid()
      modifies seenTxs
      ensures State() == old(State()).(seen := Refreshed(settings, old(State()).seen, now, hash))
      ensures known == Live(old(State()).seen, hash, now)
    {
      known := RefreshSeenTx(now, hash);
    }

    method Clear()
      modifies this`hashToContent, this`txIDToHash, this`txs
      ensures Valid() && State() == Store(map[], map[], old(State()).seen)
    {
      hashToContent, txIDToHash, txs := map[], map[], map[];
    }
  }
}
