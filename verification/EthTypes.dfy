/** Block headers, hashes and refs. */
module EthTypes {

  import opened GoInts

  datatype Option<+T> = None | Some(value: T)

  /**
   * A header names its parent by hash. A hash is either the hash of a header or a value
   * nobody has a header for. Hashing is thereby injective and no header is its own ancestor,
   * which is what the code relies on Keccak for.
   */
  datatype Header = Header(number: U64, parentHash: Hash, extra: nat)
  datatype Hash = Unknown(id: nat) | HashOf(header: Header)

  const ZERO_HASH: Hash := Unknown(0)

  datatype Body = Body(id: nat)
  datatype Block = Block(header: Header, body: Body)
  datatype BlockRef = BlockRef(height: U64, hash: Hash)

  function RefOf(header: Header): BlockRef {
    BlockRef(header.number, HashOf(header))
  }

  /** `above` names `below` as its parent. */
  predicate IsParent(above: Hash, below: Hash) {
    above.HashOf? && above.header.parentHash == below
  }

  /** Ethereum's numbering rule (Yellow Paper, section 4.3.4): one more than the parent. */
  predicate WellNumbered(header: Header) {
    header.parentHash.HashOf? ==> header.number == header.parentHash.header.number + 1
  }

  /** Excludes one header only: number 0 on top of a parent numbered 2^64 - 1. */
  predicate NoWrap(header: Header) {
    header.parentHash.HashOf? ==> !(header.number == 0 && header.parentHash.header.number == TWO_64 - 1)
  }
}
