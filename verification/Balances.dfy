/** Pending balances: the value of the live queue rows an account sends or is to receive. */
module Balances {
  import opened Basics
  import opened Queue

  // What one row adds to the outgoing balance of a holder, and to the incoming one.
  function OutgoingOf(row: Row, token: Address, holder: Address): nat {
    if row.cache.Some? && Live(row.status) && row.cache.value.sender == holder && row.cache.value.sourceToken == token
    then row.cache.value.fromValue else 0
  }

  function IncomingOf(row: Row, token: Address, holder: Address): nat {
    if row.cache.Some? && Live(row.status) && row.cache.value.recipient == holder &&
       row.cache.value.destinationToken == token
    then row.cache.value.toValue else 0
  }

  function Outgoing(rows: seq<Row>, token: Address, holder: Address): nat {
    if rows == [] then 0 else Outgoing(rows[..|rows| - 1], token, holder) + OutgoingOf(rows[|rows| - 1], token, holder)
  }

  function Incoming(rows: seq<Row>, token: Address, holder: Address): nat {
    if rows == [] then 0 else Incoming(rows[..|rows| - 1], token, holder) + IncomingOf(rows[|rows| - 1], token, holder)
  }

  method BalanceOutgoing(rows: seq<Row>, token: Address, holder: Address) returns (delta: nat)
    ensures delta == Outgoing(rows, token, holder)
  {
    delta := 0;
    for i := 0 to |rows|
      invariant delta == Outgoing(rows[..i], token, holder)
    {
      assert rows[..i + 1][..i] == rows[..i];
      var row := rows[i];
      if row.cache.Some? && row.cache.value.sender == holder && Live(row.status) &&
         row.cache.value.sourceToken == token {
        delta := delta + row.cache.value.fromValue;
      }
    }
    assert rows[..|rows|] == rows;
  }

  method BalanceIncoming(rows: seq<Row>, token: Address, receiver: Address) returns (delta: nat)
    ensures delta == Incoming(rows, token, receiver)
  {
    delta := 0;
    for i := 0 to |rows|
      invariant delta == Incoming(rows[..i], token, receiver)
    {
      assert rows[..i + 1][..i] == rows[..i];
      var row := rows[i];
      if row.cache.Some? && row.cache.value.recipient == receiver && Live(row.status) &&
         row.cache.value.destinationToken == token {
        delta := delta + row.cache.value.toValue;
      }
    }
    assert rows[..|rows|] == rows;
  }

  // ----- conservation -----

  // The balances of all holders together; the holders are listed without repetition.
  function TotalOutgoing(rows: seq<Row>, token: Address, holders: seq<Address>): nat {
    if holders == [] then 0 else Outgoing(rows, token, holders[0]) + TotalOutgoing(rows, token, holders[1..])
  }

  function TotalIncoming(rows: seq<Row>, token: Address, holders: seq<Address>): nat {
    if holders == [] then 0 else Incoming(rows, token, holders[0]) + TotalIncoming(rows, token, holders[1..])
  }

  ghost predicate Distinct(holders: seq<Address>) {
    holders != [] ==> holders[0] !in holders[1..] && Distinct(holders[1..])
  }

  // Every account that a row names is among the holders.
  ghost predicate Covers(holders: seq<Address>, rows: seq<Row>) {
    forall row | row in rows && row.cache.Some? ::
      row.cache.value.sender in holders && row.cache.value.recipient in holders
  }

  // The cache row of a token transfer: one token, and what is sent is what arrives.
  predicate TransferShaped(row: Row) {
    row.cache.Some? ==>
      row.cache.value.sourceToken == row.cache.value.destinationToken &&
      row.cache.value.fromValue == row.cache.value.toValue
  }

  // The live value of the token, by source and by destination, whoever holds it.
  function LiveSource(rows: seq<Row>, token: Address): nat {
    if rows == [] then 0
    else
      var row := rows[|rows| - 1];
      LiveSource(rows[..|rows| - 1], token) +
      if row.cache.Some? && Live(row.status) && row.cache.value.sourceToken == token
      then row.cache.value.fromValue else 0
  }

  function LiveDestination(rows: seq<Row>, token: Address): nat {
    if rows == [] then 0
    else
      var row := rows[|rows| - 1];
      LiveDestination(rows[..|rows| - 1], token) +
      if row.cache.Some? && Live(row.status) && row.cache.value.destinationToken == token
      then row.cache.value.toValue else 0
  }

  // One row more changes the total of the holders by its own value, if its holder is listed.
  lemma {:induction false} TotalsOfLastRow(rows: seq<Row>, row: Row, token: Address, holders: seq<Address>)
    requires Distinct(holders)
    ensures TotalOutgoing(rows + [row], token, holders) ==
            TotalOutgoing(rows, token, holders) +
            if row.cache.Some? && row.cache.value.sender in holders
            then OutgoingOf(row, token, row.cache.value.sender) else 0
    ensures TotalIncoming(rows + [row], token, holders) ==
            TotalIncoming(rows, token, holders) +
            if row.cache.Some? && row.cache.value.recipient in holders
            then IncomingOf(row, token, row.cache.value.recipient) else 0
  {
    if holders == [] {
    } else {
      TotalsOfLastRow(rows, row, token, holders[1..]);
      assert (rows + [row])[..|rows|] == rows;
    }
  }

  lemma {:induction false} TotalsOfNothing(token: Address, holders: seq<Address>)
    ensures TotalOutgoing([], token, holders) == 0 && TotalIncoming([], token, holders) == 0
  {
    if holders == [] {
    } else {
      TotalsOfNothing(token, holders[1..]);
    }
  }

  /** Summed over all holders, each live row is counted once on each side: nothing is dropped
      and nothing is counted for two holders. */
  lemma {:induction false} TotalsCountEachRowOnce(rows: seq<Row>, token: Address, holders: seq<Address>)
    requires Distinct(holders) && Covers(holders, rows)
    ensures TotalOutgoing(rows, token, holders) == LiveSource(rows, token)
    ensures TotalIncoming(rows, token, holders) == LiveDestination(rows, token)
  {
    if rows == [] {
      TotalsOfNothing(token, holders);
    } else {
      var front, row := rows[..|rows| - 1], rows[|rows| - 1];
      assert rows == front + [row] && row in rows;
      TotalsCountEachRowOnce(front, token, holders);
      TotalsOfLastRow(front, row, token, holders);
    }
  }

  lemma {:induction false} AllDifferent(holders: seq<Address>)
    requires forall i, j :: 0 <= i < j < |holders| ==> holders[i] != holders[j]
    ensures Distinct(holders)
  {
    if holders == [] {
    } else {
      AllDifferent(holders[1..]);
    }
  }

  /** Pending value is conserved: in a queue of transfers, what all holders together have
      outgoing in a token is what all holders together have incoming in it. */
  lemma PendingValueConserved(rows: seq<Row>, token: Address, holders: seq<Address>)
    requires forall i, j :: 0 <= i < j < |holders| ==> holders[i] != holders[j]
    requires forall row | row in rows && row.cache.Some? ::
               row.cache.value.sender in holders && row.cache.value.recipient in holders
    requires forall row | row in rows && row.cache.Some? ::
               row.cache.value.sourceToken == row.cache.value.destinationToken &&
               row.cache.value.fromValue == row.cache.value.toValue
    ensures TotalOutgoing(rows, token, holders) == TotalIncoming(rows, token, holders)
  {
    AllDifferent(holders);
    TotalsCountEachRowOnce(rows, token, holders);
    SidesAgree(rows, token);
  }

  lemma {:induction false} SidesAgree(rows: seq<Row>, token: Address)
    requires forall row | row in rows :: TransferShaped(row)
    ensures LiveSource(rows, token) == LiveDestination(rows, token)
  {
    if rows == [] {
    } else {
      assert TransferShaped(rows[|rows| - 1]);
      SidesAgree(rows[..|rows| - 1], token);
    }
  }

  // ----- balances when one row changes -----

  lemma BalancesOfLastRow(rows: seq<Row>, row: Row, token: Address, holder: Address)
    ensures Outgoing(rows + [row], token, holder) == Outgoing(rows, token, holder) + OutgoingOf(row, token, holder)
    ensures Incoming(rows + [row], token, holder) == Incoming(rows, token, holder) + IncomingOf(row, token, holder)
  {
    assert (rows + [row])[..|rows|] == rows;
  }

  /** One row more adds its source value to the outgoing balance of its sender, and its
      destination value to the incoming one of its recipient, in the token of that side, exactly
      if it has a cache row and neither FINAL nor OBSOLETE. */
  lemma RowCountsExactly(rows: seq<Row>, row: Row, token: Address, holder: Address)
    ensures Outgoing([], token, holder) == 0 && Incoming([], token, holder) == 0
    ensures Outgoing(rows + [row], token, holder) == Outgoing(rows, token, holder) +
            if row.cache.Some? && FINAL !in row.status && OBSOLETE !in row.status &&
               row.cache.value.sender == holder && row.cache.value.sourceToken == token
            then row.cache.value.fromValue else 0
    ensures Incoming(rows + [row], token, holder) == Incoming(rows, token, holder) +
            if row.cache.Some? && FINAL !in row.status && OBSOLETE !in row.status &&
               row.cache.value.recipient == holder && row.cache.value.destinationToken == token
            then row.cache.value.toValue else 0
  {
    BalancesOfLastRow(rows, row, token, holder);
  }

  /** A transaction that the network has accepted is pending no more, nor one that has failed. */
  lemma MinedRowCarriesNothing(tx: Tx, cache: Cache, token: Address, holder: Address)
    ensures Outgoing([Row(tx, {IN_NETWORK, FINAL}, Some(cache))], token, holder) == 0
    ensures Incoming([Row(tx, {IN_NETWORK, NETWORK_ERROR, FINAL}, Some(cache))], token, holder) == 0
  {
    RowCountsExactly([], Row(tx, {IN_NETWORK, FINAL}, Some(cache)), token, holder);
    RowCountsExactly([], Row(tx, {IN_NETWORK, NETWORK_ERROR, FINAL}, Some(cache)), token, holder);
    assert [] + [Row(tx, {IN_NETWORK, FINAL}, Some(cache))] == [Row(tx, {IN_NETWORK, FINAL}, Some(cache))];
    assert [] + [Row(tx, {IN_NETWORK, NETWORK_ERROR, FINAL}, Some(cache))] ==
           [Row(tx, {IN_NETWORK, NETWORK_ERROR, FINAL}, Some(cache))];
  }

  lemma {:induction false} BalancesOfChangedRow(rows: seq<Row>, i: nat, row: Row, token: Address, holder: Address)
    requires i < |rows|
    ensures Outgoing(rows[i := row], token, holder) + OutgoingOf(rows[i], token, holder) ==
            Outgoing(rows, token, holder) + OutgoingOf(row, token, holder)
    ensures Incoming(rows[i := row], token, holder) + IncomingOf(rows[i], token, holder) ==
            Incoming(rows, token, holder) + IncomingOf(row, token, holder)
  {
    var last := |rows| - 1;
    if i == last {
      assert rows[i := row][..last] == rows[..last];
    } else {
      BalancesOfChangedRow(rows[..last], i, row, token, holder);
      assert rows[i := row][..last] == rows[..last][i := row];
    }
  }
}
