/** What every run of the transaction store keeps: its index, its content, and its bar on re-entry. */
module TxRuns {
  import opened WireBytes
  import opened HashHistory
  import opened TxStore
  import opened TxCleanup

  datatype AnyCall =
    | AddTx(hash: TxHash, content: Bytes, txID: TxID, network: nat, timestamp: int, nextID: TxID)
    | GetTx(hash: TxHash)
    | KnownTx(hash: TxHash)
    | RemoveHashes(hashes: seq<TxHash>, protection: Protection)
    | RemoveTxIDs(ids: seq<TxID>, protection: Protection)
    | CleanStore
    | CleanHistory
    | Clear

  /** The calls that do not panic: an addition brings an ID or some content. */
  type Call = call: AnyCall | call.AddTx? ==> call.txID != NO_ID || call.content != [] witness CleanStore

  datatype Timed = Timed(at: int, call: Call)

  ghost predicate InOrder(since: int, events: seq<Timed>) {
    && (forall i :: 0 <= i < |events| ==> since <= events[i].at)
    && (forall i, j :: 0 <= i < j < |events| ==> events[i].at <= events[j].at)
  }

  function TimeAfter(since: int, events: seq<Timed>): int {
    if events == [] then since else events[|events| - 1].at
  }

  function Added(c: Settings, s: Store, e: Timed): (Store, Result)
    requires e.call.AddTx?
  {
    TxStore.Add(c, s, e.at, e.call.hash, e.call.content, e.call.txID, e.call.network, e.call.timestamp, e.call.nextID)
  }

  ghost function Step(c: Settings, s: Store, e: Timed): Store {
    match e.call
    case AddTx(_, _, _, _, _, _) => Added(c, s, e).0
    case GetTx(hash) => s.(seen := Refreshed(c, s.seen, e.at, hash))
    case KnownTx(hash) => s.(seen := Refreshed(c, s.seen, e.at, hash))
    case RemoveHashes(hashes, protection) => Without(c, s, e.at, Hashes(hashes), protection)
    case RemoveTxIDs(ids, protection) => Without(c, s, e.at, Indexed(s, ids), protection)
    case CleanStore => Cleaned(c, s, e.at)
    case CleanHistory => s.(seen := Swept(s.seen, e.at))
    case Clear => Store(map[], map[], s.seen)
  }

  ghost function Run(c: Settings, s: Store, events: seq<Timed>): Store {
    if events == [] then s else Step(c, Run(c, s, events[..|events| - 1]), events[|events| - 1])
  }

  // The index

  ghost predicate IndexSound(s: Store) {
    forall id :: id in s.index ==> s.index[id] in s.txs && id in s.txs[s.index[id]].ids
  }

  ghost predicate IDsDistinct(s: Store) {
    forall hash :: hash in s.txs ==>
      && NO_ID !in s.txs[hash].ids
      && forall i, j :: 0 <= i < j < |s.txs[hash].ids| ==> s.txs[hash].ids[i] != s.txs[hash].ids[j]
  }

  ghost predicate IndexComplete(s: Store) {
    forall hash, id :: hash in s.txs && id in s.txs[hash].ids ==> id in s.index && s.index[id] == hash
  }

  lemma PutKeepsSound(s: Store, hash: TxHash, content: Bytes, txID: TxID, network: nat, timestamp: int, nextID: TxID)
    requires IndexSound(s) && IDsDistinct(s)
    ensures var s' := Put(s, hash, content, txID, network, timestamp, nextID).0; IndexSound(s') && IDsDistinct(s')
  {
  }

  lemma AddKeepsSound(c: Settings, s: Store, e: Timed)
    requires IndexSound(s) && IDsDistinct(s) && e.call.AddTx?
    ensures IndexSound(Added(c, s, e).0) && IDsDistinct(Added(c, s, e).0)
  {
    var AddTx(hash, content, txID, network, timestamp, nextID) := e.call;
    var s0 := s.(seen := if Live(s.seen, hash, e.at) then s.seen - {hash} else s.seen);
    PutKeepsSound(s0, hash, content, txID, network, timestamp, nextID);
  }

  lemma WithoutKeepsSound(c: Settings, s: Store, now: int, gone: set<TxHash>, protection: Protection)
    requires IndexSound(s) && IDsDistinct(s)
    ensures IndexSound(Without(c, s, now, gone, protection)) && IDsDistinct(Without(c, s, now, gone, protection))
  {
  }

  lemma StepKeepsSound(c: Settings, s: Store, e: Timed)
    requires IndexSound(s) && IDsDistinct(s)
    ensures IndexSound(Step(c, s, e)) && IDsDistinct(Step(c, s, e))
  {
    match e.call
    case AddTx(_, _, _, _, _, _) => AddKeepsSound(c, s, e);
    case RemoveHashes(hashes, protection) => WithoutKeepsSound(c, s, e.at, Hashes(hashes), protection);
    case RemoveTxIDs(ids, protection) => WithoutKeepsSound(c, s, e.at, Indexed(s, ids), protection);
    case CleanStore => WithoutKeepsSound(c, s, e.at, DoomedSet(c, s, e.at), FullReEntryProtection);
    case _ =>
  }

  /** In every run an indexed ID leads to a stored transaction that lists it once: a lookup by ID never finds content missing. */
  lemma {:induction false} IndexLeadsToContent(c: Settings, events: seq<Timed>)
    ensures var s := Run(c, EMPTY_STORE, events);
            && IndexSound(s) && IDsDistinct(s)
            && forall id :: GetTxByID(s, id) != NoContent && (GetTxByID(s, id).Found? ==> id in GetTxByID(s, id).tx.ids)
  {
    if events != [] {
      IndexLeadsToContent(c, events[..|events| - 1]);
      StepKeepsSound(c, Run(c, EMPTY_STORE, events[..|events| - 1]), events[|events| - 1]);
    }
  }

  /** An addition that takes an ID which the index already gives to another transaction. */
  predicate Reassigns(c: Settings, s: Store, e: Timed) {
    e.call.AddTx? && Added(c, s, e).1.newTxID
    && (if e.call.txID != NO_ID then e.call.txID else e.call.nextID) in s.index
  }

  lemma PutKeepsCompleteIff(s: Store, hash: TxHash, content: Bytes, txID: TxID, network: nat, timestamp: int,
          nextID: TxID)
    requires IndexSound(s) && IDsDistinct(s) && IndexComplete(s)
    ensures var (s', r) := Put(s, hash, content, txID, network, timestamp, nextID);
            IndexComplete(s') <==> !(r.newTxID && (if txID != NO_ID then txID else nextID) in s.index)
  {
    var (s', r) := Put(s, hash, content, txID, network, timestamp, nextID);
    var id := if txID != NO_ID then txID else nextID;
    if r.newTxID && id in s.index {
      var other := s.index[id];
      assert other in s'.txs && id in s'.txs[other].ids && s'.index[id] == hash != other;
    }
  }

  /** Refused: too old, or in the history without an ID to lift the bar. */
  predicate Refused(c: Settings, s: Store, e: Timed)
    requires e.call.AddTx?
  {
    TooOld(c, e.at, e.call.timestamp) || (Live(s.seen, e.call.hash, e.at) && e.call.txID == NO_ID)
  }

  /** A refused addition changes the history at most. */
  lemma RefusedLeavesStore(c: Settings, s: Store, e: Timed)
    requires e.call.AddTx? && Refused(c, s, e)
    ensures var (s', r) := Added(c, s, e); s'.txs == s.txs && s'.index == s.index && !r.newTxID
  {
  }

  lemma EnteredIsPut(c: Settings, s: Store, e: Timed)
    requires e.call.AddTx? && !Refused(c, s, e)
    ensures var AddTx(hash, content, txID, network, timestamp, nextID) := e.call;
            var s0 := s.(seen := if Live(s.seen, hash, e.at) then s.seen - {hash} else s.seen);
            Added(c, s, e) == Put(s0, hash, content, txID, network, timestamp, nextID)
  {
  }

  lemma AddKeepsCompleteIff(c: Settings, s: Store, e: Timed)
    requires IndexSound(s) && IDsDistinct(s) && IndexComplete(s) && e.call.AddTx?
    ensures IndexComplete(Added(c, s, e).0) <==> !Reassigns(c, s, e)
  {
    if Refused(c, s, e) {
      RefusedLeavesStore(c, s, e);
    } else {
      EnteredIsPut(c, s, e);
      var AddTx(hash, content, txID, network, timestamp, nextID) := e.call;
      var s0 := s.(seen := if Live(s.seen, hash, e.at) then s.seen - {hash} else s.seen);
      PutKeepsCompleteIff(s0, hash, content, txID, network, timestamp, nextID);
    }
  }

  /** After such an addition, taking the second transaction out leaves the first stored under an ID that finds nothing. */
  lemma ReassignedIDIsLost(c: Settings, s: Store, e: Timed, now: int, protection: Protection)
    requires IndexSound(s) && IDsDistinct(s) && Reassigns(c, s, e)
    ensures var id := if e.call.txID != NO_ID then e.call.txID else e.call.nextID;
            var s' := Without(c, Added(c, s, e).0, now, {e.call.hash}, protection);
            s.index[id] in s'.txs && id in s'.txs[s.index[id]].ids && GetTxByID(s', id) == NoTransaction
  {
    var id := if e.call.txID != NO_ID then e.call.txID else e.call.nextID;
    assert id in Added(c, s, e).0.txs[e.call.hash].ids;
    assert id in IDsOf(Added(c, s, e).0, {e.call.hash});
  }

  lemma WithoutKeepsComplete(c: Settings, s: Store, now: int, gone: set<TxHash>, protection: Protection)
    requires IndexComplete(s)
    ensures IndexComplete(Without(c, s, now, gone, protection))
  {
    var s' := Without(c, s, now, gone, protection);
    forall hash, id | hash in s'.txs && id in s'.txs[hash].ids ensures id in s'.index && s'.index[id] == hash {
      assert hash in s.txs && id in s.index && s.index[id] == hash;
    }
  }

  /** From an index that equals a full scan, one step leads to another exactly unless it gives a taken ID to a second transaction. */
  lemma StepKeepsCompleteIff(c: Settings, s: Store, e: Timed)
    requires IndexSound(s) && IDsDistinct(s) && IndexComplete(s)
    ensures IndexComplete(Step(c, s, e)) <==> !Reassigns(c, s, e)
  {
    match e.call
    case AddTx(_, _, _, _, _, _) => AddKeepsCompleteIff(c, s, e);
    case RemoveHashes(hashes, protection) => WithoutKeepsComplete(c, s, e.at, Hashes(hashes), protection);
    case RemoveTxIDs(ids, protection) => WithoutKeepsComplete(c, s, e.at, Indexed(s, ids), protection);
    case CleanStore => WithoutKeepsComplete(c, s, e.at, DoomedSet(c, s, e.at), FullReEntryProtection);
    case _ =>
  }

  /** The store of a run before its k-th call. */
  ghost function StoreAt(c: Settings, events: seq<Timed>, k: nat): Store
    requires k <= |events|
  {
    Run(c, EMPTY_STORE, events[..k])
  }

  lemma CompleteNextIff(c: Settings, events: seq<Timed>, k: nat)
    requires k < |events| && IndexComplete(StoreAt(c, events, k))
    ensures IndexComplete(StoreAt(c, events, k + 1)) <==> !Reassigns(c, StoreAt(c, events, k), events[k])
  {
    assert events[..k + 1][..k] == events[..k];
    IndexLeadsToContent(c, events[..k]);
    StepKeepsCompleteIff(c, StoreAt(c, events, k), events[k]);
  }

  lemma {:induction false} CompleteUpTo(c: Settings, events: seq<Timed>, n: nat)
    requires n <= |events| && forall k :: 0 <= k < n ==> !Reassigns(c, StoreAt(c, events, k), events[k])
    ensures IndexComplete(StoreAt(c, events, n))
  {
    if n > 0 {
      CompleteUpTo(c, events, n - 1);
      CompleteNextIff(c, events, n - 1);
    }
  }

  /** The index equals a full scan in all states of a run exactly when no call gives a taken ID to a second transaction. */
  lemma RunCompleteIff(c: Settings, events: seq<Timed>)
    ensures (forall k :: 0 <= k <= |events| ==> IndexComplete(StoreAt(c, events, k)))
            <==> (forall k :: 0 <= k < |events| ==> !Reassigns(c, StoreAt(c, events, k), events[k]))
  {
    if forall k :: 0 <= k <= |events| ==> IndexComplete(StoreAt(c, events, k)) {
      forall k | 0 <= k < |events| ensures !Reassigns(c, StoreAt(c, events, k), events[k]) {
        CompleteNextIff(c, events, k);
      }
    }
    if forall k :: 0 <= k < |events| ==> !Reassigns(c, StoreAt(c, events, k), events[k]) {
      forall k | 0 <= k <= |events| ensures IndexComplete(StoreAt(c, events, k)) {
        CompleteUpTo(c, events, k);
      }
    }
  }

  /** The IDs that a call may hand to its hash all belong to that hash. */
  predicate Respects(owner: TxID -> TxHash, e: Timed) {
    e.call.AddTx? ==> && (e.call.txID != NO_ID ==> owner(e.call.txID) == e.call.hash)
                      && (e.call.nextID != NO_ID ==> owner(e.call.nextID) == e.call.hash)
  }

  lemma OwnedNotReassigned(c: Settings, s: Store, e: Timed, owner: TxID -> TxHash)
    requires IndexSound(s) && (forall id :: id in s.index ==> owner(id) == s.index[id]) && Respects(owner, e)
    ensures !Reassigns(c, s, e)
    ensures forall id :: id in Step(c, s, e).index ==> owner(id) == Step(c, s, e).index[id]
  {
  }

  /** If no ID is ever given to two hashes, the index equals a full scan of the store. */
  lemma {:induction false} IndexIsFullScan(c: Settings, events: seq<Timed>, owner: TxID -> TxHash)
    requires forall i :: 0 <= i < |events| ==> Respects(owner, events[i])
    ensures var s := Run(c, EMPTY_STORE, events);
            && (forall id :: id in s.index ==> owner(id) == s.index[id])
            && IndexComplete(s)
            && forall hash, id :: (id in s.index && s.index[id] == hash) <==> (hash in s.txs && id in s.txs[hash].ids)
  {
    IndexLeadsToContent(c, events);
    if events != [] {
      var before, e := Run(c, EMPTY_STORE, events[..|events| - 1]), events[|events| - 1];
      IndexIsFullScan(c, events[..|events| - 1], owner);
      IndexLeadsToContent(c, events[..|events| - 1]);
      OwnedNotReassigned(c, before, e, owner);
      StepKeepsCompleteIff(c, before, e);
    }
  }

  // Lookups after additions and removals

  /**
   * A hash is stored after an addition exactly if it was before or the addition is not refused. Then
   * its content is the first that came with it, and the ID that came with it leads to it.
   */
  lemma AddThenFound(c: Settings, s: Store, e: Timed)
    requires IndexSound(s) && IDsDistinct(s) && IndexComplete(s) && e.call.AddTx?
    ensures var s', hash := Step(c, s, e), e.call.hash;
            && (hash in s'.txs <==> hash in s.txs || !Refused(c, s, e))
            && (!Refused(c, s, e) ==>
                  && s'.txs[hash].content == (if hash in s.txs && s.txs[hash].content != [] then s.txs[hash].content else e.call.content)
                  && (e.call.txID != NO_ID ==> GetTxByID(s', e.call.txID) == Found(hash, s'.txs[hash])))
  {
  }

  /** After a removal none of the hashes is stored, and no ID that one of them listed finds anything. */
  lemma RemoveThenGone(c: Settings, s: Store, now: int, gone: set<TxHash>, protection: Protection, hash: TxHash,
          id: TxID)
    requires hash in gone && hash in s.txs && id in s.txs[hash].ids
    ensures var s' := Without(c, s, now, gone, protection); hash !in s'.txs && GetTxByID(s', id) == NoTransaction
  {
    assert id in IDsOf(s, gone);
  }

  // What each call must do

  /** An addition takes effect if it is not too old and brings an ID or finds the hash not barred. */
  predicate Timely(c: Settings, s: Store, e: Timed)
    requires e.call.AddTx?
  {
    e.at - e.call.timestamp <= c.maxTxAge && (e.call.txID != 0 || !Live(s.seen, e.call.hash, e.at))
  }

  function ContentOf(s: Store, hash: TxHash): Bytes {
    if hash in s.txs then s.txs[hash].content else []
  }

  function IDsListed(s: Store, hash: TxHash): seq<TxID> {
    if hash in s.txs then s.txs[hash].ids else []
  }

  /** The ID an addition has for its hash: its own, or one assigned to a hash that is new. */
  function IDBrought(s: Store, e: Timed): TxID
    requires e.call.AddTx?
  {
    if e.call.txID == 0 && e.call.hash !in s.txs then e.call.nextID else e.call.txID
  }

  /** The entry of the hash afterwards: its first content, its IDs in order of arrival, and what it was entered with. */
  lemma AddEnters(c: Settings, s: Store, e: Timed)
    requires e.call.AddTx?
    ensures var s', hash, id, ids := Added(c, s, e).0, e.call.hash, IDBrought(s, e), IDsListed(s, e.call.hash);
            if Timely(c, s, e) then
              var was := if hash in s.txs then s.txs[hash] else Tx([], [], e.call.timestamp, e.call.network);
              && s'.txs == s.txs[hash := Tx(if ContentOf(s, hash) == [] then e.call.content else ContentOf(s, hash),
                                            if id == 0 || id in ids then ids else ids + [id], was.addTime, was.network)]
              && s'.index == (if id == 0 || id in ids then s.index else s.index[id := hash])
              && s'.seen == (if Live(s.seen, hash, e.at) then s.seen - {hash} else s.seen)
            else
              && s'.txs == s.txs && s'.index == s.index
              && s'.seen == if e.at - e.call.timestamp <= c.maxTxAge then s.seen[hash := e.at + c.timeToAvoidReEntry] else s.seen
  {
  }

  /** The result of an addition, told by the store before and after it. */
  lemma AddTells(c: Settings, s: Store, e: Timed)
    requires e.call.AddTx?
    ensures var (s', r) := Added(c, s, e);
            var hash := e.call.hash;
            && (r.newTx <==> hash !in s.txs && hash in s'.txs)
            && (r.newContent <==> ContentOf(s, hash) == [] && ContentOf(s', hash) != [])
            && (r.newTxID <==> IDsListed(s', hash) != IDsListed(s, hash))
            && (r.assignedTxID == if r.newTx && e.call.txID == 0 then e.call.nextID else 0)
            && (r.newTxID ==> IDsListed(s', hash) == IDsListed(s, hash) + [if e.call.txID == 0 then r.assignedTxID else e.call.txID])
            && (r.alreadySeen <==> e.at - e.call.timestamp <= c.maxTxAge && Live(s.seen, hash, e.at) && e.call.txID == 0)
            && !r.reprocess && !r.failedValidation
  {
    AddEnters(c, s, e);
  }

  /** A lookup finds nothing new and changes nothing, but a barred hash is barred afresh. */
  lemma LookupRefreshes(c: Settings, s: Store, e: Timed, hash: TxHash)
    requires e.call == GetTx(hash) || e.call == KnownTx(hash)
    ensures Step(c, s, e) == if Live(s.seen, hash, e.at) then s.(seen := s.seen[hash := e.at + c.timeToAvoidReEntry]) else s
  {
  }

  /** A removal takes out what is to go, with the IDs it lists, bars it as asked, and leaves the rest. */
  lemma RemovalTakes(c: Settings, s: Store, now: int, gone: set<TxHash>, protection: Protection, hash: TxHash, id: TxID)
    ensures var s' := Without(c, s, now, gone, protection);
            && (hash in s'.txs <==> hash in s.txs && hash !in gone) && (hash in s'.txs ==> s'.txs[hash] == s.txs[hash])
            && (id in s'.index <==> id in s.index && forall h :: h in gone && h in s.txs ==> id !in s.txs[h].ids)
            && (id in s'.index ==> s'.index[id] == s.index[id])
            && (if hash in gone && hash in s.txs && protection != NoReEntryProtection then
                  hash in s'.seen && s'.seen[hash] == now + if protection == ShortReEntryProtection then 1_800_000_000_000 else c.timeToAvoidReEntry
                else (hash in s'.seen <==> hash in s.seen) && (hash in s.seen ==> s'.seen[hash] == s.seen[hash]))
  {
  }

  /** Which those are: the hashes listed, those the listed IDs lead to, or those the cleanup chooses. */
  lemma RemovalsTake(c: Settings, s: Store, e: Timed, hash: TxHash)
    requires hash in s.txs
    ensures e.call.RemoveHashes? ==> (hash in Step(c, s, e).txs <==> hash !in e.call.hashes)
    ensures e.call.RemoveTxIDs? ==>
              (hash in Step(c, s, e).txs <==> forall id :: id in e.call.ids && id in s.index ==> s.index[id] != hash)
    ensures e.call.CleanStore? ==> (hash in Step(c, s, e).txs <==> hash !in DoomedSet(c, s, e.at))
    ensures e.call.Clear? ==> Step(c, s, e) == Store(map[], map[], s.seen)
    ensures e.call.CleanHistory? ==> Step(c, s, e).txs == s.txs && Step(c, s, e).index == s.index
    ensures e.call.AddTx? || e.call.GetTx? || e.call.KnownTx? ==> hash in Step(c, s, e).txs
  {
  }

  // Stored or barred

  /** No stored hash is live in the history. */
  ghost predicate Apart(s: Store, now: int) {
    forall hash :: hash in s.txs ==> !Live(s.seen, hash, now)
  }

  lemma StepKeepsApart(c: Settings, s: Store, e: Timed)
    requires Apart(s, e.at)
    ensures Apart(Step(c, s, e), e.at)
  {
  }

  /** With a clock that does not go back, no hash is both stored and live in the history, now or later. */
  lemma {:induction false} NeverStoredAndBarred(c: Settings, events: seq<Timed>, since: int, now: int)
    requires InOrder(since, events) && TimeAfter(since, events) <= now
    ensures Apart(Run(c, EMPTY_STORE, events), now)
  {
    if events != [] {
      var n := |events| - 1;
      NeverStoredAndBarred(c, events[..n], since, events[n].at);
      StepKeepsApart(c, Run(c, EMPTY_STORE, events[..n]), events[n]);
    }
  }

  // Re-entry

  /** The calls that look a hash up in the history. */
  predicate Touches(c: Settings, e: Timed, hash: TxHash) {
    match e.call
    case AddTx(h, _, _, _, timestamp, _) => h == hash && !TooOld(c, e.at, timestamp)
    case GetTx(h) => h == hash
    case KnownTx(h) => h == hash
    case _ => false
  }

  function LastTouch(c: Settings, hash: TxHash, removed: int, events: seq<Timed>): int {
    if events == [] then removed
    else if Touches(c, events[|events| - 1], hash) then events[|events| - 1].at
    else LastTouch(c, hash, removed, events[..|events| - 1])
  }

  /** Every touch comes without an ID and within the protection time of the one before it, or of the removal. */
  predicate Guarded(c: Settings, hash: TxHash, removed: int, events: seq<Timed>) {
    if events == [] then true
    else
      var before, e := events[..|events| - 1], events[|events| - 1];
      Guarded(c, hash, removed, before)
      && (Touches(c, e, hash) ==>
            e.at < LastTouch(c, hash, removed, before) + c.timeToAvoidReEntry && (e.call.AddTx? ==> e.call.txID == NO_ID))
  }

  ghost predicate Barred(s: Store, hash: TxHash, until: int, now: int) {
    hash !in s.txs && (hash in s.seen ==> s.seen[hash] == until) && (now < until ==> hash in s.seen)
  }

  lemma RemovalBars(c: Settings, s: Store, now: int, gone: set<TxHash>, hash: TxHash)
    requires hash in gone && hash in s.txs
    ensures Barred(Without(c, s, now, gone, FullReEntryProtection), hash, now + c.timeToAvoidReEntry, now)
  {
  }

  lemma StepKeepsBar(c: Settings, s: Store, e: Timed, hash: TxHash, until: int, now: int)
    requires Barred(s, hash, until, now) && now <= e.at
    requires Touches(c, e, hash) ==> e.at < until && (e.call.AddTx? ==> e.call.txID == NO_ID)
    ensures Barred(Step(c, s, e), hash, if Touches(c, e, hash) then e.at + c.timeToAvoidReEntry else until, e.at)
  {
  }

  lemma {:induction false} GuardedStaysBarred(c: Settings, s: Store, hash: TxHash, removed: int, events: seq<Timed>)
    requires Barred(s, hash, removed + c.timeToAvoidReEntry, removed)
    requires InOrder(removed, events) && Guarded(c, hash, removed, events)
    ensures Barred(Run(c, s, events), hash, LastTouch(c, hash, removed, events) + c.timeToAvoidReEntry, TimeAfter(removed, events))
  {
    if events != [] {
      var before, e := events[..|events| - 1], events[|events| - 1];
      GuardedStaysBarred(c, s, hash, removed, before);
      StepKeepsBar(c, Run(c, s, before), e, hash, LastTouch(c, hash, removed, before) + c.timeToAvoidReEntry, TimeAfter(removed, before));
    }
  }

  /** A hash taken out with full protection is not stored again while each touch comes in time and brings no ID. */
  lemma ProtectedStaysOut(c: Settings, s: Store, now: int, gone: set<TxHash>, hash: TxHash, events: seq<Timed>)
    requires hash in gone && hash in s.txs && InOrder(now, events) && Guarded(c, hash, now, events)
    ensures hash !in Run(c, Without(c, s, now, gone, FullReEntryProtection), events).txs
  {
    RemovalBars(c, s, now, gone, hash);
    GuardedStaysBarred(c, Without(c, s, now, gone, FullReEntryProtection), hash, now, events);
  }

  /** The bar is exact: the next addition without an ID is refused if and only if it comes within the protection time. */
  lemma ReEntryExactlyAfterLapse(c: Settings, s: Store, now: int, gone: set<TxHash>, hash: TxHash, events: seq<Timed>,
          e: Timed)
    requires hash in gone && hash in s.txs && InOrder(now, events + [e]) && Guarded(c, hash, now, events)
    requires e.call.AddTx? && e.call.hash == hash && e.call.txID == NO_ID && Touches(c, e, hash)
    ensures var before := Run(c, Without(c, s, now, gone, FullReEntryProtection), events);
            && (hash in Step(c, before, e).txs <==> e.at >= LastTouch(c, hash, now, events) + c.timeToAvoidReEntry)
            && (Added(c, before, e).1.alreadySeen <==> hash !in Step(c, before, e).txs)
  {
    assert forall i :: 0 <= i < |events| ==> (events + [e])[i] == events[i];
    assert (events + [e])[|events|] == e;
    RemovalBars(c, s, now, gone, hash);
    GuardedStaysBarred(c, Without(c, s, now, gone, FullReEntryProtection), hash, now, events);
  }

  // Content

  /** The addition on which a gateway forwards a transaction. */
  predicate Forwards(c: Settings, s: Store, e: Timed, hash: TxHash) {
    e.call.AddTx? && e.call.hash == hash && (Added(c, s, e).1.newContent || Added(c, s, e).1.reprocess)
  }

  ghost predicate StoredThroughout(c: Settings, s: Store, events: seq<Timed>, hash: TxHash, from: nat) {
    forall k :: from <= k <= |events| ==> hash in Run(c, s, events[..k]).txs
  }

  lemma StepKeepsContent(c: Settings, s: Store, e: Timed, hash: TxHash)
    requires hash in s.txs && hash in Step(c, s, e).txs && s.txs[hash].content != []
    ensures Step(c, s, e).txs[hash].content == s.txs[hash].content
  {
  }

  /** While a hash stays stored, content once set stays as it is. */
  lemma {:induction false} ContentIsWriteOnce(c: Settings, s: Store, events: seq<Timed>, hash: TxHash, from: nat)
    requires from <= |events| && StoredThroughout(c, s, events, hash, from) && Run(c, s, events[..from]).txs[hash].content != []
    ensures hash in Run(c, s, events).txs && Run(c, s, events).txs[hash].content == Run(c, s, events[..from]).txs[hash].content
  {
    assert events[..|events|] == events;
    if from < |events| {
      var n := |events| - 1;
      assert forall k :: 0 <= k <= n ==> events[..n][..k] == events[..k];
      ContentIsWriteOnce(c, s, events[..n], hash, from);
      StepKeepsContent(c, Run(c, s, events[..n]), events[n], hash);
    }
  }

  /** Between two forwardings of a hash it was out of the store: one forwarding at most for each stay. */
  lemma ForwardedOncePerStay(c: Settings, s: Store, events: seq<Timed>, i: nat, j: nat, hash: TxHash)
    requires i < j < |events|
    requires Forwards(c, Run(c, s, events[..i]), events[i], hash) && Forwards(c, Run(c, s, events[..j]), events[j], hash)
    ensures exists k :: i < k <= j && hash !in Run(c, s, events[..k]).txs
  {
    if forall k :: i < k <= j ==> hash in Run(c, s, events[..k]).txs {
      assert events[..i + 1][..i] == events[..i];
      assert forall k :: 0 <= k <= j ==> events[..j][..k] == events[..k];
      ContentIsWriteOnce(c, s, events[..j], hash, i + 1);
    }
  }

  /** An addition is forwarded exactly when it brings a hash its first content. */
  lemma ForwardsIff(c: Settings, s: Store, e: Timed, hash: TxHash)
    ensures Forwards(c, s, e, hash)
            <==> e.call.AddTx? && e.call.hash == hash && ContentOf(s, hash) == [] && ContentOf(Step(c, s, e), hash) != []
  {
    if e.call.AddTx? {
      AddTells(c, s, e);
    }
  }

  /** Nothing but an addition of the hash itself brings content. */
  lemma OnlyAddsBringContent(c: Settings, s: Store, e: Timed, hash: TxHash)
    requires ContentOf(s, hash) == [] && ContentOf(Step(c, s, e), hash) != []
    ensures e.call.AddTx? && e.call.hash == hash
  {
    if e.call.AddTx? {
      AddEnters(c, s, e);
    }
  }

  /** The moment in a stay at which content arrives is one at which it is forwarded. */
  lemma {:induction false} ContentIsForwarded(c: Settings, s: Store, events: seq<Timed>, hash: TxHash, from: nat)
      returns (i: nat)
    requires from < |events| && ContentOf(Run(c, s, events[..from]), hash) == [] && ContentOf(Run(c, s, events), hash) != []
    ensures from <= i < |events| && Forwards(c, Run(c, s, events[..i]), events[i], hash)
  {
    var n := |events| - 1;
    var before := events[..n];
    if ContentOf(Run(c, s, before), hash) == [] {
      i := n;
      OnlyAddsBringContent(c, Run(c, s, before), events[n], hash);
      ForwardsIff(c, Run(c, s, before), events[n], hash);
    } else {
      assert from < n;
      assert before[..from] == events[..from];
      i := ContentIsForwarded(c, s, before, hash, from);
      assert before[..i] == events[..i];
    }
  }

  lemma AtMostOneForwarding(c: Settings, s: Store, events: seq<Timed>, hash: TxHash, from: nat, i: nat, j: nat)
    requires from <= i < j < |events| && StoredThroughout(c, s, events, hash, from + 1)
    requires Forwards(c, Run(c, s, events[..i]), events[i], hash)
    ensures !Forwards(c, Run(c, s, events[..j]), events[j], hash)
  {
    assert forall k :: from + 1 <= k <= |events| ==> hash in Run(c, s, events[..k]).txs;
    if Forwards(c, Run(c, s, events[..j]), events[j], hash) {
      ForwardedOncePerStay(c, s, events, i, j, hash);
    }
  }

  lemma ForwardedHasContent(c: Settings, s: Store, events: seq<Timed>, hash: TxHash, from: nat, i: nat)
    requires from <= i < |events| && StoredThroughout(c, s, events, hash, from + 1)
    requires Forwards(c, Run(c, s, events[..i]), events[i], hash)
    ensures ContentOf(Run(c, s, events), hash) != []
  {
    assert events[..i + 1][..i] == events[..i];
    ForwardsIff(c, Run(c, s, events[..i]), events[i], hash);
    ContentIsWriteOnce(c, s, events, hash, i + 1);
  }

  /** Over a stay, from an absence on: exactly one forwarding if content has arrived in it, and none if not. */
  lemma ForwardedExactlyOncePerStay(c: Settings, s: Store, events: seq<Timed>, hash: TxHash, from: nat)
    requires from < |events| && hash !in Run(c, s, events[..from]).txs && StoredThroughout(c, s, events, hash, from + 1)
    ensures ContentOf(Run(c, s, events), hash) != []
            <==> exists i :: from <= i < |events| && Forwards(c, Run(c, s, events[..i]), events[i], hash)
    ensures forall i, j :: from <= i < j < |events| && Forwards(c, Run(c, s, events[..i]), events[i], hash) ==>
              !Forwards(c, Run(c, s, events[..j]), events[j], hash)
  {
    if ContentOf(Run(c, s, events), hash) != [] {
      var i := ContentIsForwarded(c, s, events, hash, from);
    }
    if i :| from <= i < |events| && Forwards(c, Run(c, s, events[..i]), events[i], hash) {
      ForwardedHasContent(c, s, events, hash, from, i);
    }
    forall i, j | from <= i < j < |events| && Forwards(c, Run(c, s, events[..i]), events[i], hash)
      ensures !Forwards(c, Run(c, s, events[..j]), events[j], hash) {
      AtMostOneForwarding(c, s, events, hash, from, i, j);
    }
  }

  lemma BarredNotForwarded(c: Settings, s: Store, e: Timed, hash: TxHash, until: int, now: int)
    requires Barred(s, hash, until, now) && now <= e.at
    requires Touches(c, e, hash) ==> e.at < until && (e.call.AddTx? ==> e.call.txID == NO_ID)
    ensures !Forwards(c, s, e, hash)
  {
  }

  /** A transaction taken out with full protection is not forwarded again while each touch comes in time and brings no ID. */
  lemma ProtectedNotForwarded(c: Settings, s: Store, now: int, gone: set<TxHash>, hash: TxHash, events: seq<Timed>,
          i: nat)
    requires hash in gone && hash in s.txs && InOrder(now, events) && i < |events| && Guarded(c, hash, now, events[..i + 1])
    ensures !Forwards(c, Run(c, Without(c, s, now, gone, FullReEntryProtection), events[..i]), events[i], hash)
  {
    var s' := Without(c, s, now, gone, FullReEntryProtection);
    assert events[..i + 1][..i] == events[..i] && events[..i + 1][i] == events[i];
    RemovalBars(c, s, now, gone, hash);
    GuardedStaysBarred(c, s', hash, now, events[..i]);
    BarredNotForwarded(c, Run(c, s', events[..i]), events[i], hash, LastTouch(c, hash, now, events[..i]) + c.timeToAvoidReEntry,
                       TimeAfter(now, events[..i]));
  }
}
