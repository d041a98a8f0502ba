/** Retrying a transaction at a higher gas price: the straggler filter that retires the old
    transaction, and the task that queues its replacement. */
module Resend {
  import opened Basics
  import opened Queue
  import Balances
  import Locks

  const MAX_RESEND_ATTEMPTS: nat := 10

  function Pow(base: nat, exponent: nat): nat {
    if exponent == 0 then 1 else base * Pow(base, exponent - 1)
  }

  // The price of the first attempt: the explicit one, or one raised from the old price.
  function FirstPrice(current: nat, network: nat, explicit: Option<nat>, factor: nat): nat {
    var price := match explicit
      case Some(gas) => gas
      case None => if current > network then current + 1 else current * factor;
    if price == current then price + 1 else price
  }

  // The transaction tried in the given attempt.
  function Attempt(tx: Tx, price: nat, factor: nat, attempt: nat): Tx {
    tx.(gasPrice := price * Pow(factor, attempt))
  }

  // The first attempts are in the queue already.
  predicate AllTaken(rows: seq<Row>, tx: Tx, price: nat, factor: nat, attempts: nat) {
    forall j: nat | j < attempts :: HasTx(rows, Attempt(tx, price, factor, j))
  }

  // The queue row of a replacement: pending, with the cache row of the original.
  function Replacement(original: Row, tx: Tx): Row {
    Row(tx, PENDING, original.cache)
  }

  datatype ResendResult =
    | Resent(attempt: nat, tx: Tx)
    | ResendImpossible       // every attempt was in the queue already
    | QueueLocked            // LockedError from queue_create
    | NotLocal               // the original is not in the queue

  datatype FilterResult = Touched | Fubar | Scheduled

  class Retrier {
    var rows: seq<Row>

    constructor (queue: seq<Row>)
      ensures rows == queue
    {
      rows := queue;
    }

    /** The straggler filter on the row of a transaction. */
    method Filter(i: nat, gasBalance: nat, threshold: nat, stateChangeRefused: bool) returns (r: FilterResult)
      requires i < |rows|
      modifies this
      ensures r == (if GAS_ISSUES in old(rows)[i].status && gasBalance < threshold then Touched
                    else if stateChangeRefused then Fubar else Scheduled)
      ensures r == Touched ==> rows == old(rows)
      ensures r == Fubar ==>
                rows == old(rows)[i := old(rows)[i].(status := old(rows)[i].status + {FINAL, UNKNOWN_ERROR})]
      ensures r == Scheduled ==>
                var row := old(rows)[i];
                && rows == old(rows)[i := Obsoleted(row)]
                && Obsoleted(row) == Row(row.tx, row.status - {QUEUED, RESERVED} + {OBSOLETE}, row.cache)
    {
      if GAS_ISSUES in rows[i].status {
        if gasBalance < threshold {
          return Touched;
        }
      }
      if stateChangeRefused {
        rows := rows[i := rows[i].(status := rows[i].status + {FINAL, UNKNOWN_ERROR})];
        return Fubar;
      }
      rows := rows[i := Obsoleted(rows[i])];
      r := Scheduled;
    }

    /** A whole straggler step: the filter obsoletes the row, and the resend queues its
        replacement. */
    method Straggle(i: nat, gasBalance: nat, threshold: nat, stateChangeRefused: bool,
                    locks: Locks.Table, chain: string, network: nat, factor: nat)
      returns (f: FilterResult, r: ResendResult)
      requires i < |rows|
      modifies this
      ensures f.Scheduled? && r.Resent? ==> rows == Completed(old(rows), i, r.tx) && r.tx.nonce == old(rows)[i].tx.nonce
      ensures f.Scheduled? && !r.Resent? ==> rows == old(rows)[i := Obsoleted(old(rows)[i])]
      ensures f.Touched? ==> rows == old(rows)
      ensures f.Fubar? ==>
                rows == old(rows)[i := old(rows)[i].(status := old(rows)[i].status + {FINAL, UNKNOWN_ERROR})]
      ensures f == (if GAS_ISSUES in old(rows)[i].status && gasBalance < threshold then Touched
                    else if stateChangeRefused then Fubar else Scheduled)
    {
      r := NotLocal;
      f := Filter(i, gasBalance, threshold, stateChangeRefused);
      if f.Scheduled? {
        r := ResendWithHigherGas(i, locks, chain, None, network, factor);
        if r.Resent? {
          ReplacementOfObsoleted(old(rows), i, r.tx);
        }
      }
    }

    // The price of the first attempt.
    method StartPrice(current: nat, network: nat, explicit: Option<nat>, factor: nat) returns (price: nat)
      ensures price == FirstPrice(current, network, explicit, factor)
    {
      match explicit {
        case Some(gas) => price := gas;
        case None =>
          if current > network {
            price := current + 1;
          } else {
            price := current * factor;
          }
      }
      if price == current {
        price := price + 1;
      }
    }

    /** Queue the transaction again at the first price of the escalation that is not taken. */
    method ResendWithHigherGas(i: nat, locks: Locks.Table, chain: string, explicit: Option<nat>, network: nat,
                               factor: nat)
      returns (r: ResendResult)
      modifies this
      ensures i >= |old(rows)| <==> r == NotLocal
      ensures r.QueueLocked? <==>
              i < |old(rows)| && Locks.CheckAggregate(locks, chain, Locks.QUEUE, old(rows)[i].tx.sender) != {}
      ensures !r.Resent? ==> rows == old(rows)
      ensures r.ResendImpossible? ==>
                AllTaken(rows, rows[i].tx, FirstPrice(rows[i].tx.gasPrice, network, explicit, factor), factor, 10)
      ensures r.Resent? ==>
                var tx := old(rows)[i].tx;
                && r.attempt < 10
                && r.tx == Tx(tx.sender, tx.nonce, r.tx.gasPrice, tx.gas, tx.recipient, tx.value, tx.data)
                && (forall j :: 0 <= j < |old(rows)| ==> old(rows)[j].tx != r.tx)
                && AllTaken(old(rows), tx, FirstPrice(tx.gasPrice, network, explicit, factor), factor, r.attempt)
                && rows == old(rows) + [Row(r.tx, {}, old(rows)[i].cache)]
      ensures r.Resent? && explicit == None ==>
                var current := old(rows)[i].tx.gasPrice;
                && (network < current ==> r.tx.gasPrice == (current + 1) * Pow(factor, r.attempt))
                && (network >= current && factor >= 2 && current > 0 ==>
                      r.tx.gasPrice == current * Pow(factor, r.attempt + 1))
                && (network >= current && (factor == 1 || current == 0) ==>
                      r.tx.gasPrice == (current + 1) * Pow(factor, r.attempt))
      ensures r.Resent? && explicit.Some? ==>
                var current := old(rows)[i].tx.gasPrice;
                r.tx.gasPrice ==
                (if explicit.value == current then current + 1 else explicit.value) * Pow(factor, r.attempt)
      ensures i < |old(rows)| && explicit == None && factor >= 2 &&
              |set row | row in old(rows) && row.tx.sender == old(rows)[i].tx.sender &&
                         row.tx.nonce == old(rows)[i].tx.nonce :: row.tx| < 10 ==>
                r.Resent? || r.QueueLocked?
    {
      if i >= |rows| {
        return NotLocal;
      }
      var tx := rows[i].tx;
      var price := StartPrice(tx.gasPrice, network, explicit, factor);
      ghost var original, first := tx, price;
      for attempt := 0 to MAX_RESEND_ATTEMPTS
        invariant price == first * Pow(factor, attempt)
        invariant rows == old(rows) && tx == original.(gasPrice := tx.gasPrice)
        invariant attempt > 0 ==> Locks.CheckAggregate(locks, chain, Locks.QUEUE, tx.sender) == {}
        invariant AllTaken(rows, original, first, factor, attempt)
      {
        tx := tx.(gasPrice := price);
        if Locks.CheckAggregate(locks, chain, Locks.QUEUE, tx.sender) != {} {
          return QueueLocked;
        }
        if !HasTx(rows, tx) {
          rows := rows + [Replacement(rows[i], tx)];
          PriceOfAttempt(original.gasPrice, network, explicit, factor, attempt);
          return Resent(attempt, tx);
        }
        NextPrice(first, factor, attempt);
        price := price * factor;
      }
      if explicit == None && factor >= 2 {
        FirstPriceIsHigher(original.gasPrice, network, factor);
        FewRivalsOrImpossible(rows, original, first, factor);
      }
      r := ResendImpossible;
    }
  }

  /** The price of every attempt, from the old price, the network's and the explicit one: one more
      than the old price if the network is below it, the old price times the factor if not, or the
      explicit price; one more if that is the old price; and times the factor at every attempt. */
  lemma PriceOfAttempt(current: nat, network: nat, explicit: Option<nat>, factor: nat, attempt: nat)
    ensures var price := FirstPrice(current, network, explicit, factor) * Pow(factor, attempt);
            && (explicit == None && network < current ==> price == (current + 1) * Pow(factor, attempt))
            && (explicit == None && network >= current && factor >= 2 && current > 0 ==>
                  price == current * Pow(factor, attempt + 1))
            && (explicit == None && network >= current && (factor == 1 || current == 0) ==>
                  price == (current + 1) * Pow(factor, attempt))
            && (explicit.Some? ==>
                  price == (if explicit.value == current then current + 1 else explicit.value) * Pow(factor, attempt))
  {
    if explicit == None && network >= current && factor >= 2 && current > 0 {
      assert current * factor >= current * 2;
      assert current * factor * Pow(factor, attempt) == current * (factor * Pow(factor, attempt));
    }
  }

  /** An attempt differs from the transaction in nothing but the price. */
  lemma AttemptChangesPriceOnly(rows: seq<Row>, tx: Tx, price: nat, factor: nat, j: nat)
    ensures Attempt(tx, price, factor, j) ==
            Tx(tx.sender, tx.nonce, price * Pow(factor, j), tx.gas, tx.recipient, tx.value, tx.data)
    ensures Pow(factor, 0) == 1 && Pow(factor, 1) == factor
    ensures AllTaken(rows, tx, price, factor, j + 1) <==>
            AllTaken(rows, tx, price, factor, j) &&
            exists i :: 0 <= i < |rows| && rows[i].tx == Attempt(tx, price, factor, j)
  {
    assert Pow(factor, 1) == factor * Pow(factor, 0);
  }

  /** At network price 20 a transaction at price 10 is tried at 20 first, and at network price 5 at
      11. */
  lemma FirstPricesOfTen(factor: nat)
    requires factor == 2
    ensures FirstPrice(10, 20, None, factor) == 20 && FirstPrice(10, 5, None, factor) == 11
    ensures FirstPrice(10, 5, Some(7), factor) == 7 && FirstPrice(10, 5, Some(10), factor) == 11
  {
  }

  lemma ReplacementOfObsoleted(rows: seq<Row>, i: nat, tx: Tx)
    requires i < |rows|
    ensures var obsoleted := rows[i := Obsoleted(rows[i])];
            obsoleted + [Replacement(obsoleted[i], tx)] == Completed(rows, i, tx)
  {
  }

  lemma NextPrice(first: nat, factor: nat, attempt: nat)
    ensures first * Pow(factor, attempt + 1) == first * Pow(factor, attempt) * factor
  {
  }

  // ----- the escalation -----

  lemma FirstPriceIsHigher(current: nat, network: nat, factor: nat)
    requires factor >= 1
    ensures FirstPrice(current, network, None, factor) > current
  {
    if current <= network && factor >= 2 && current > 0 {
      assert current * factor >= current * 2;
    }
  }

  lemma {:induction false} PricesGrow(price: nat, factor: nat, i: nat, j: nat)
    requires price > 0 && factor >= 2 && i < j
    ensures price * Pow(factor, i) < price * Pow(factor, j)
    decreases j
  {
    PowPositive(factor, j - 1);
    NextPrice(price, factor, j - 1);
    var before := price * Pow(factor, j - 1);
    assert before > 0 && before * factor >= before * 2;
    if i == j - 1 {
    } else {
      PricesGrow(price, factor, i, j - 1);
    }
  }

  lemma {:induction false} PowPositive(factor: nat, i: nat)
    requires factor >= 1
    ensures Pow(factor, i) >= 1
  {
    if i == 0 {
    } else {
      PowPositive(factor, i - 1);
    }
  }

  /** With no explicit price and a factor of at least 2, no price is tried twice and every
      price tried is above the old one. */
  lemma EscalationRaisesPrice(tx: Tx, network: nat, factor: nat, i: nat, j: nat)
    requires factor >= 2 && i < j
    ensures var price := FirstPrice(tx.gasPrice, network, None, factor);
            tx.gasPrice < Attempt(tx, price, factor, i).gasPrice < Attempt(tx, price, factor, j).gasPrice
  {
    var price := FirstPrice(tx.gasPrice, network, None, factor);
    FirstPriceIsHigher(tx.gasPrice, network, factor);
    PricesGrow(price, factor, i, j);
    if i > 0 {
      PricesGrow(price, factor, 0, i);
    }
    assert price * Pow(factor, 0) == price;
  }

  // The queued transactions of the sender with the nonce of the given one.
  function Rivals(rows: seq<Row>, tx: Tx): set<Tx> {
    set row | row in rows && row.tx.sender == tx.sender && row.tx.nonce == tx.nonce :: row.tx
  }

  function Attempts(tx: Tx, price: nat, factor: nat, count: nat): set<Tx> {
    if count == 0 then {} else Attempts(tx, price, factor, count - 1) + {Attempt(tx, price, factor, count - 1)}
  }

  lemma {:induction false} AttemptsAreDistinct(tx: Tx, price: nat, factor: nat, count: nat)
    requires price > 0 && factor >= 2
    ensures |Attempts(tx, price, factor, count)| == count
    ensures forall t | t in Attempts(tx, price, factor, count) ::
              exists j: nat :: j < count && t == Attempt(tx, price, factor, j)
  {
    if count == 0 {
    } else {
      AttemptsAreDistinct(tx, price, factor, count - 1);
      var last := Attempt(tx, price, factor, count - 1);
      if last in Attempts(tx, price, factor, count - 1) {
        var j: nat :| j < count - 1 && last == Attempt(tx, price, factor, j);
        PricesGrow(price, factor, j, count - 1);
      }
    }
  }

  /** By pigeonhole, the escalation reaches a free price whenever the queue holds fewer
      transactions of the sender with this nonce than there are attempts. */
  lemma FewRivalsLeaveAFreePrice(rows: seq<Row>, tx: Tx, price: nat, factor: nat)
    requires price > 0 && factor >= 2
    requires |Rivals(rows, tx)| < MAX_RESEND_ATTEMPTS
    ensures exists j: nat :: j < MAX_RESEND_ATTEMPTS && !HasTx(rows, Attempt(tx, price, factor, j))
  {
    if forall j: nat | j < MAX_RESEND_ATTEMPTS :: HasTx(rows, Attempt(tx, price, factor, j)) {
      var tried := Attempts(tx, price, factor, MAX_RESEND_ATTEMPTS);
      AttemptsAreDistinct(tx, price, factor, MAX_RESEND_ATTEMPTS);
      forall t | t in tried ensures t in Rivals(rows, tx) {
        var j: nat :| j < MAX_RESEND_ATTEMPTS && t == Attempt(tx, price, factor, j);
        var i :| 0 <= i < |rows| && rows[i].tx == t;
        assert rows[i] in rows;
      }
      SubsetIsSmaller(tried, Rivals(rows, tx));
    }
  }

  lemma FewRivalsOrImpossible(rows: seq<Row>, tx: Tx, price: nat, factor: nat)
    requires price > 0 && factor >= 2
    requires AllTaken(rows, tx, price, factor, MAX_RESEND_ATTEMPTS)
    ensures |Rivals(rows, tx)| >= MAX_RESEND_ATTEMPTS
  {
    if |Rivals(rows, tx)| < MAX_RESEND_ATTEMPTS {
      FewRivalsLeaveAFreePrice(rows, tx, price, factor);
    }
  }

  // ----- a completed straggler step -----

  // The row has been obsoleted and its replacement queued.
  function Completed(rows: seq<Row>, i: nat, tx: Tx): seq<Row>
    requires i < |rows|
  {
    rows[i := Obsoleted(rows[i])] + [Replacement(rows[i], tx)]
  }

  lemma BalancesAfterStraggler(rows: seq<Row>, i: nat, tx: Tx, token: Address, holder: Address)
    requires i < |rows|
    ensures Balances.Outgoing(Completed(rows, i, tx), token, holder) + Balances.OutgoingOf(rows[i], token, holder) ==
            Balances.Outgoing(rows, token, holder) + Balances.OutgoingOf(Replacement(rows[i], tx), token, holder)
    ensures Balances.Incoming(Completed(rows, i, tx), token, holder) + Balances.IncomingOf(rows[i], token, holder) ==
            Balances.Incoming(rows, token, holder) + Balances.IncomingOf(Replacement(rows[i], tx), token, holder)
  {
    Balances.BalancesOfChangedRow(rows, i, Obsoleted(rows[i]), token, holder);
    Balances.BalancesOfLastRow(rows[i := Obsoleted(rows[i])], Replacement(rows[i], tx), token, holder);
  }

  /** A completed straggler step leaves every pending balance of every holder as it was
      exactly if the row it replaced was live (or carried no value at all). */
  lemma StragglerKeepsBalancesExactly(rows: seq<Row>, i: nat, tx: Tx)
    requires i < |rows| && rows[i].cache.Some?
    ensures (forall token, holder ::
               Balances.Outgoing(Completed(rows, i, tx), token, holder) == Balances.Outgoing(rows, token, holder) &&
               Balances.Incoming(Completed(rows, i, tx), token, holder) == Balances.Incoming(rows, token, holder))
            <==> Live(rows[i].status) || (rows[i].cache.value.fromValue == 0 && rows[i].cache.value.toValue == 0)
  {
    var c := rows[i].cache.value;
    forall token, holder
      ensures Live(rows[i].status) || (c.fromValue == 0 && c.toValue == 0) ==>
                Balances.Outgoing(Completed(rows, i, tx), token, holder) == Balances.Outgoing(rows, token, holder) &&
                Balances.Incoming(Completed(rows, i, tx), token, holder) == Balances.Incoming(rows, token, holder)
    {
      BalancesAfterStraggler(rows, i, tx, token, holder);
    }
    BalancesAfterStraggler(rows, i, tx, c.sourceToken, c.sender);
    BalancesAfterStraggler(rows, i, tx, c.destinationToken, c.recipient);
  }

  /** A replacement leaves at most one live transaction of its nonce exactly if the row it
      replaced had no live rival, which a dead row may have. Other senders and nonces are left
      as they were. */
  lemma StragglerKeepsOneLiveExactly(rows: seq<Row>, i: nat, tx: Tx, sender: Address, nonce: nat)
    requires i < |rows| && tx.nonce == rows[i].tx.nonce && rows[i].cache.Some?
    ensures AtMostOneLive(Completed(rows, i, tx), sender, nonce) <==>
            if sender == rows[i].cache.value.sender && nonce == rows[i].tx.nonce
            then forall j :: LiveAt(rows, j, sender, nonce) ==> j == i
            else AtMostOneLive(rows, sender, nonce)
  {
    var after := Completed(rows, i, tx);
    forall j ensures LiveAt(after, j, sender, nonce) <==>
                     if j == |rows| then sender == rows[i].cache.value.sender && nonce == rows[i].tx.nonce
                     else j != i && LiveAt(rows, j, sender, nonce)
    {
    }
    if sender == rows[i].cache.value.sender && nonce == rows[i].tx.nonce {
      assert LiveAt(after, |rows|, sender, nonce);
      if j :| LiveAt(rows, j, sender, nonce) && j != i {
        assert LiveAt(after, j, sender, nonce);
      }
    } else {
      forall j | LiveAt(rows, j, sender, nonce) ensures LiveAt(after, j, sender, nonce) {
      }
    }
  }

  /** The queue stays one of transfers, so value stays conserved through retries. */
  lemma StragglerKeepsTransfers(rows: seq<Row>, i: nat, tx: Tx)
    requires i < |rows|
    requires forall row | row in rows :: Balances.TransferShaped(row)
    ensures forall row | row in Completed(rows, i, tx) :: Balances.TransferShaped(row)
  {
    assert Balances.TransferShaped(rows[i]);
  }
}
