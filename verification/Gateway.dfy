/** The gateway's handling of a transaction message: store it, and forward it if it brought new content. */
module Gateway {
  import opened WireBytes
  import opened HashHistory
  import opened TxStore
  import TbTxStore
  import TxRuns

  /** A transaction message, with what the gateway asks of the connection it came by. */
  datatype Message = Message(
    hash: TxHash, content: Bytes, txID: TxID, network: nat, fromRelay: bool, fromBlockchain: bool)

  /** The message as a call of the store; the gateway stamps it with its own clock. */
  function Arrival(m: Message, now: int, nextID: TxID): TxRuns.Timed
    requires m.txID != NO_ID || m.content != []
  {
    TxRuns.Timed(now, TxRuns.AddTx(m.hash, m.content, m.txID, m.network, now, nextID))
  }

  /** A transaction has its content since, and had none before. */
  predicate BringsContent(before: Store, after: Store, hash: TxHash) {
    TxRuns.ContentOf(before, hash) == [] && TxRuns.ContentOf(after, hash) != []
  }

  /** A message not too old brings content exactly if it has some, the hash has none, and it is not barred or comes with an ID. */
  lemma FirstContentIsNews(c: Settings, s: Store, m: Message, now: int, nextID: TxID)
    requires (m.txID != NO_ID || m.content != []) && c.maxTxAge >= 0
    ensures BringsContent(s, TxRuns.Added(c, s, Arrival(m, now, nextID)).0, m.hash)
            <==> m.content != [] && TxRuns.ContentOf(s, m.hash) == [] && (m.txID != NO_ID || !Live(s.seen, m.hash, now))
  {
    TxRuns.AddEnters(c, s, Arrival(m, now, nextID));
  }

  class Node {
    const store: TbTxStore.TbTxStore
    // hashes broadcast to the relays and handed to the blockchain node, oldest first
    var toBDN: seq<TxHash>
    var toNode: seq<TxHash>

    constructor (store: TbTxStore.TbTxStore)
      ensures this.store == store && toBDN == toNode == []
    {
      this.store, toBDN, toNode := store, [], [];
    }

    method ProcessTransaction(m: Message, now: int, nextID: TxID)
      requires store.Valid() && (m.txID != NO_ID || m.content != [])
      modifies this`toBDN, this`toNode, store, store.seenTxs, store.hashToContent.Values
      ensures store.Valid()
      ensures store.State() == TxRuns.Added(store.settings, old(store.State()), Arrival(m, now, nextID)).0
      ensures var news := BringsContent(old(store.State()), store.State(), m.hash);
              && toBDN == (if news && !m.fromRelay then old(toBDN) + [m.hash] else old(toBDN))
              && toNode == (if news && !m.fromBlockchain then old(toNode) + [m.hash] else old(toNode))
    {
      TxRuns.AddTells(store.settings, store.State(), Arrival(m, now, nextID));
      var result, transaction := store.Add(now, m.hash, m.content, m.txID, m.network, now, nextID);
      if result.newContent || result.reprocess {
        Forward(m, transaction);
      }
    }

    method Forward(m: Message, transaction: TbTxStore.TbTransaction)
      modifies this`toBDN, this`toNode
      ensures toBDN == (if !m.fromRelay then old(toBDN) + [m.hash] else old(toBDN))
      ensures toNode == (if !m.fromBlockchain then old(toNode) + [transaction.hash] else old(toNode))
    {
      if !m.fromRelay {
        toBDN := toBDN + [m.hash];
      }
      if !m.fromBlockchain {
        toNode := toNode + [transaction.hash];
      }
    }
  }
}
