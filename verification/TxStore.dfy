/** The transaction store: transactions by hash, an index of their short IDs, and a history that bars re-entry. */
module TxStore {
  import opened GoInts
  import opened WireBytes
  import opened HashHistory

  type TxID = U32

  const NO_ID: TxID := 0
  const SECOND: int := 1_000_000_000
  const SHORT_PROTECTION: int := 30 * 60 * SECOND

  datatype Settings = Settings(maxTxAge: int, noTxIDAge: int, timeToAvoidReEntry: int)

  datatype Tx = Tx(content: Bytes, ids: seq<TxID>, addTime: int, network: nat)

  datatype Store = Store(txs: map<TxHash, Tx>, index: map<TxID, TxHash>, seen: Seen)

  datatype Protection = NoReEntryProtection | ShortReEntryProtection | FullReEntryProtection

  datatype Result = Result(
    newTx: bool, newContent: bool, newTxID: bool, reprocess: bool, failedValidation: bool,
    assignedTxID: TxID, alreadySeen: bool)

  const NOTHING_NEW := Result(false, false, false, false, false, NO_ID, false)

  const EMPTY_STORE := Store(map[], map[], map[])

  // Transactions

  function NewTx(network: nat, timestamp: int): Tx {
    Tx([], [], timestamp, network)
  }

  predicate TakesID(tx: Tx, id: TxID) {
    id != NO_ID && id !in tx.ids
  }

  predicate TakesContent(tx: Tx, content: Bytes) {
    tx.content == [] && content != []
  }

  function WithID(tx: Tx, id: TxID): Tx {
    if TakesID(tx, id) then tx.(ids := tx.ids + [id]) else tx
  }

  function WithContent(tx: Tx, content: Bytes): Tx {
    if TakesContent(tx, content) then tx.(content := content) else tx
  }

  // Operations

  predicate TooOld(c: Settings, now: int, timestamp: int) {
    now - timestamp > c.maxTxAge
  }

  /** A lookup of a live hash starts its protection afresh. */
  function Refreshed(c: Settings, seen: Seen, now: int, hash: TxHash): Seen {
    if Live(seen, hash, now) then seen[hash := now + c.timeToAvoidReEntry] else seen
  }

  /** Adding; nextID is what the ID assigner would hand out, 0 when it does not assign. */
  function Add(c: Settings, s: Store, now: int, hash: TxHash, content: Bytes, txID: TxID, network: nat, timestamp: int,
               nextID: TxID): (Store, Result)
    requires txID != NO_ID || content != []
  {
    if TooOld(c, now, timestamp) then (s, NOTHING_NEW)
    else if Live(s.seen, hash, now) && txID == NO_ID then
      (s.(seen := Refreshed(c, s.seen, now, hash)), NOTHING_NEW.(alreadySeen := true))
    else Put(s.(seen := if Live(s.seen, hash, now) then s.seen - {hash} else s.seen), hash, content, txID, network, timestamp, nextID)
  }

  function Put(s: Store, hash: TxHash, content: Bytes, txID: TxID, network: nat, timestamp: int,
          nextID: TxID): (Store, Result) {
    var newTx := hash !in s.txs;
    var tx := if newTx then NewTx(network, timestamp) else s.txs[hash];
    var assigns := newTx && txID == NO_ID;
    var id := if assigns then nextID else txID;
    (Store(s.txs[hash := WithContent(WithID(tx, id), content)], if TakesID(tx, id) then s.index[id := hash] else s.index, s.seen),
     Result(newTx, TakesContent(tx, content), TakesID(tx, id), false, false, if assigns then nextID else NO_ID, false))
  }

  /** The IDs of those of the given transactions that are stored. */
  function IDsOf(s: Store, gone: set<TxHash>): set<TxID> {
    set hash, id | hash in gone && hash in s.txs && id in s.txs[hash].ids :: id
  }

  /** Taking the given transactions out, with the protection asked for. */
  function Without(c: Settings, s: Store, now: int, gone: set<TxHash>, protection: Protection): Store {
    Store(s.txs - gone, s.index - IDsOf(s, gone), Protected(s.seen, gone * s.txs.Keys, ProtectedUntil(c, now, protection)))
  }

  function ProtectedUntil(c: Settings, now: int, protection: Protection): Expiry {
    match protection
    case NoReEntryProtection => Never
    case ShortReEntryProtection => At(now + SHORT_PROTECTION)
    case FullReEntryProtection => At(now + c.timeToAvoidReEntry)
  }

  function Protected(seen: Seen, hashes: set<TxHash>, expiry: Expiry): Seen {
    if expiry.Never? then seen else seen + map hash | hash in hashes :: expiry.time
  }

  function Hashes(hashes: seq<TxHash>): set<TxHash> {
    set hash | hash in hashes
  }

  /** What an index of IDs gives for a list of them. */
  function Indexed(s: Store, ids: seq<TxID>): set<TxHash> {
    set id | id in ids && id in s.index :: s.index[id]
  }

  datatype Lookup = Found(hash: TxHash, tx: Tx) | NoContent | NoTransaction

  function GetTxByID(s: Store, id: TxID): Lookup {
    if id in s.index then (if s.index[id] in s.txs then Found(s.index[id], s.txs[s.index[id]]) else NoContent) else NoTransaction
  }

  // Taking out one by one

  function Listed(ids: seq<TxID>): set<TxID> {
    set id | id in ids
  }

  /** Taking out one stored transaction: its entry and each ID it lists go, and its hash is protected. */
  lemma WithoutOne(c: Settings, s: Store, now: int, hash: TxHash, protection: Protection)
    requires hash in s.txs
    ensures var expiry := ProtectedUntil(c, now, protection);
            Without(c, s, now, {hash}, protection)
            == Store(s.txs - {hash}, s.index - Listed(s.txs[hash].ids), if expiry.Never? then s.seen else s.seen[hash := expiry.time])
  {
  }

  /** Taking out what is not stored changes nothing. */
  lemma WithoutNone(c: Settings, s: Store, now: int, gone: set<TxHash>, protection: Protection)
    requires gone !! s.txs.Keys
    ensures Without(c, s, now, gone, protection) == s
  {
  }

  lemma IDsTwice(c: Settings, s: Store, now: int, a: set<TxHash>, b: set<TxHash>, protection: Protection)
    ensures IDsOf(s, a) + IDsOf(Without(c, s, now, a, protection), b) == IDsOf(s, a + b)
  {
    var once := Without(c, s, now, a, protection);
    forall id | id in IDsOf(s, a + b) ensures id in IDsOf(s, a) + IDsOf(once, b) {
      var hash :| hash in a + b && hash in s.txs && id in s.txs[hash].ids;
      assert hash in a || hash in once.txs;
    }
    forall id | id in IDsOf(once, b) ensures id in IDsOf(s, a + b) {
      var hash :| hash in b && hash in once.txs && id in once.txs[hash].ids;
      assert hash in a + b && hash in s.txs;
    }
  }

  lemma ProtectedTwice(seen: Seen, a: set<TxHash>, b: set<TxHash>, expiry: Expiry)
    ensures Protected(Protected(seen, a, expiry), b, expiry) == Protected(seen, b + a, expiry)
  {
  }

  lemma MapPutTwice<K, V>(m: map<K, V>, key: K, first: V, second: V)
    ensures m[key := first][key := second] == m[key := second]
  {
  }

  lemma MapMinusTwice<K, V>(m: map<K, V>, a: set<K>, b: set<K>)
    ensures m - a - b == m - (a + b)
  {
  }

  /** Taking out one set and then another is taking out both. */
  lemma WithoutTwice(c: Settings, s: Store, now: int, a: set<TxHash>, b: set<TxHash>, protection: Protection)
    ensures Without(c, Without(c, s, now, a, protection), now, b, protection) == Without(c, s, now, a + b, protection)
  {
    var once := Without(c, s, now, a, protection);
    IDsTwice(c, s, now, a, b, protection);
    MapMinusTwice(s.txs, a, b);
    MapMinusTwice(s.index, IDsOf(s, a), IDsOf(once, b));
    ProtectedTwice(s.seen, a * s.txs.Keys, b * once.txs.Keys, ProtectedUntil(c, now, protection));
    assert b * once.txs.Keys + a * s.txs.Keys == (a + b) * s.txs.Keys;
  }
}
