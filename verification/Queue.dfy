/** The transaction queue of cic-eth: signed transactions with their status and cache row. */
module Queue {
  import opened Basics

  // The bits of a queue status; a status value is the set of its bits.
  datatype StatusBit =
    | QUEUED | RESERVED | IN_NETWORK | DEFERRED | GAS_ISSUES
    | LOCAL_ERROR | NODE_ERROR | NETWORK_ERROR | UNKNOWN_ERROR
    | FINAL | OBSOLETE | MANUAL

  type Status = set<StatusBit>

  const PENDING: Status := {}

  // The comparison `status & dead() == 0`.
  predicate Live(s: Status) {
    FINAL !in s && OBSOLETE !in s
  }

  // A signed transaction. The hash is injective in these fields, so equal hashes mean
  // equal transactions.
  datatype Tx = Tx(sender: Address, nonce: nat, gasPrice: nat, gas: nat, recipient: Address, value: nat, data: string)

  // The tx_cache row of a transaction: who pays whom, in which tokens.
  datatype Cache = Cache(
    sender: Address, recipient: Address,
    sourceToken: Address, destinationToken: Address,
    fromValue: nat, toValue: nat)

  // A queue row; the cache row is added by a task of its own, and queries that join the
  // two tables do not see a row without one.
  datatype Row = Row(tx: Tx, status: Status, cache: Option<Cache>)

  // tx_hash is unique in the queue.
  ghost predicate UniqueTxs(rows: seq<Row>) {
    forall i, j :: 0 <= i < j < |rows| ==> rows[i].tx != rows[j].tx
  }

  predicate HasTx(rows: seq<Row>, tx: Tx) {
    exists i :: 0 <= i < |rows| && rows[i].tx == tx
  }

  predicate LiveFor(row: Row, sender: Address) {
    row.cache.Some? && row.cache.value.sender == sender && Live(row.status)
  }

  // Index i holds a live transaction of the sender with this nonce.
  predicate LiveAt(rows: seq<Row>, i: int, sender: Address, nonce: int) {
    0 <= i < |rows| && LiveFor(rows[i], sender) && rows[i].tx.nonce == nonce
  }

  ghost predicate AtMostOneLive(rows: seq<Row>, sender: Address, nonce: int) {
    forall i, j :: LiveAt(rows, i, sender, nonce) && LiveAt(rows, j, sender, nonce) ==> i == j
  }

  ghost predicate OneLive(rows: seq<Row>, sender: Address, nonce: int) {
    AtMostOneLive(rows, sender, nonce) && exists i :: LiveAt(rows, i, sender, nonce)
  }

  ghost predicate NoneLive(rows: seq<Row>, sender: Address, nonce: int) {
    forall i :: !LiveAt(rows, i, sender, nonce)
  }

  // set_cancel with the manual flag: the row is dead from then on.
  function Cancelled(row: Row): Row {
    row.(status := row.status + {OBSOLETE, FINAL, MANUAL})
  }

  // obsolete_by_cache: another transaction with the same nonce takes the place of the row.
  function Obsoleted(row: Row): Row {
    row.(status := row.status - {QUEUED, RESERVED} + {OBSOLETE})
  }
}
