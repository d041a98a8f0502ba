/** Pending balances over whole runs of the queue: rows enter, get their cache rows, change status,
    and are retried, resent and shifted. */
module Pending {
  import opened Basics
  import opened Queue
  import opened Balances
  import Resend
  import Shift

  datatype Step =
    // a transaction is registered; it has no cache row yet
    | Register(tx: Tx)
    // the cache task of a transfer: one token, and what is sent is what arrives; gas is a token
    // of the zero address
    | RecordTransfer(i: nat, sender: Address, recipient: Address, token: Address, value: nat)
    // any change of status, by whatever task
    | ChangeStatus(i: nat, status: Status)
    // a completed straggler step
    | Straggle(i: nat, tx: Tx)
    // a resend by hand, which leaves the original as it is
    | ResendByHand(i: nat, tx: Tx)
    // a shift of which the first k replacements have been committed
    | ShiftTo(origin: nat, delta: int, order: seq<nat>, k: nat)

  ghost predicate Enabled(rows: seq<Row>, step: Step) {
    match step
    case Register(_) => true
    case RecordTransfer(i, _, _, _, _) => i < |rows| && rows[i].cache.None?
    case ChangeStatus(i, _) => i < |rows|
    case Straggle(i, _) => i < |rows|
    case ResendByHand(i, _) => i < |rows|
    case ShiftTo(origin, delta, order, k) => origin < |rows| && Shift.Movable(rows, order, delta) && k <= |order|
  }

  ghost function Apply(rows: seq<Row>, step: Step): seq<Row>
    requires Enabled(rows, step)
  {
    match step
    case Register(tx) => rows + [Row(tx, PENDING, None)]
    case RecordTransfer(i, sender, recipient, token, value) =>
      rows[i := rows[i].(cache := Some(Cache(sender, recipient, token, token, value, value)))]
    case ChangeStatus(i, status) => rows[i := rows[i].(status := status)]
    case Straggle(i, tx) => Resend.Completed(rows, i, tx)
    case ResendByHand(i, tx) => rows + [Resend.Replacement(rows[i], tx)]
    case ShiftTo(origin, delta, order, k) => Shift.Committed(rows, origin, order, delta, k)
  }

  ghost predicate Runs(rows: seq<Row>, steps: seq<Step>)
    decreases |steps|
  {
    steps == [] || (Enabled(rows, steps[0]) && Runs(Apply(rows, steps[0]), steps[1..]))
  }

  ghost function After(rows: seq<Row>, steps: seq<Step>): seq<Row>
    requires Runs(rows, steps)
    decreases |steps|
  {
    if steps == [] then rows else After(Apply(rows, steps[0]), steps[1..])
  }

  ghost predicate AllTransfers(rows: seq<Row>) {
    forall row | row in rows :: TransferShaped(row)
  }

  lemma ReplacedRowKeepsTransfers(rows: seq<Row>, i: nat, row: Row)
    requires AllTransfers(rows) && i < |rows| && TransferShaped(row)
    ensures AllTransfers(rows[i := row])
  {
    forall other | other in rows[i := row] ensures TransferShaped(other) {
      assert other == row || other in rows;
    }
  }

  lemma StepKeepsTransfers(rows: seq<Row>, step: Step)
    requires AllTransfers(rows) && Enabled(rows, step)
    ensures AllTransfers(Apply(rows, step))
  {
    match step
    case Register(tx) =>
    case RecordTransfer(i, sender, recipient, token, value) =>
      var cache := Cache(sender, recipient, token, token, value, value);
      ReplacedRowKeepsTransfers(rows, i, rows[i].(cache := Some(cache)));
    case ChangeStatus(i, status) =>
      assert TransferShaped(rows[i]);
      ReplacedRowKeepsTransfers(rows, i, rows[i].(status := status));
    case Straggle(i, tx) => Resend.StragglerKeepsTransfers(rows, i, tx);
    case ResendByHand(i, tx) => assert TransferShaped(rows[i]);
    case ShiftTo(origin, delta, order, k) => Shift.ShiftKeepsTransfers(rows, origin, order, delta, k);
  }

  lemma {:induction false} RunKeepsTransfers(rows: seq<Row>, steps: seq<Step>)
    requires AllTransfers(rows) && Runs(rows, steps)
    ensures AllTransfers(After(rows, steps))
    decreases |steps|
  {
    if steps == [] {
    } else {
      StepKeepsTransfers(rows, steps[0]);
      RunKeepsTransfers(Apply(rows, steps[0]), steps[1..]);
    }
  }

  /** Whatever happens to a queue of transfers, in every state that a run from the empty queue
      reaches, what all holders together have outgoing in a token is what they have incoming. */
  lemma ValueConservedInEveryState(steps: seq<Step>, token: Address, holders: seq<Address>)
    requires Runs([], steps)
    requires forall i, j :: 0 <= i < j < |holders| ==> holders[i] != holders[j]
    requires forall row | row in After([], steps) && row.cache.Some? ::
               row.cache.value.sender in holders && row.cache.value.recipient in holders
    ensures TotalOutgoing(After([], steps), token, holders) == TotalIncoming(After([], steps), token, holders)
  {
    RunKeepsTransfers([], steps);
    assert forall row | row in After([], steps) :: TransferShaped(row);
    PendingValueConserved(After([], steps), token, holders);
  }

  lemma OneRowPending(row: Row, token: Address, holder: Address)
    ensures Outgoing([row], token, holder) == OutgoingOf(row, token, holder)
    ensures Incoming([row], token, holder) == IncomingOf(row, token, holder)
  {
    assert [] + [row] == [row];
    BalancesOfLastRow([], row, token, holder);
  }

  lemma RecordedThenMined(tx: Tx, sender: Address, recipient: Address, token: Address, value: nat)
    ensures var cache := Some(Cache(sender, recipient, token, token, value, value));
            && Apply([], Register(tx)) == [Row(tx, {}, None)]
            && Apply([Row(tx, {}, None)], RecordTransfer(0, sender, recipient, token, value)) == [Row(tx, {}, cache)]
            && Apply([Row(tx, {}, cache)], ChangeStatus(0, {IN_NETWORK, FINAL})) ==
               [Row(tx, {IN_NETWORK, FINAL}, cache)]
  {
  }

  /** A transfer is pending, on both sides, from the time its cache row is recorded until it is
      mined. */
  lemma PendingUntilMined(tx: Tx, sender: Address, recipient: Address, token: Address, value: nat)
    ensures var registered := Apply([], Register(tx));
            var recorded := Apply(registered, RecordTransfer(0, sender, recipient, token, value));
            var mined := Apply(recorded, ChangeStatus(0, {IN_NETWORK, FINAL}));
            && Outgoing(registered, token, sender) == 0 && Incoming(registered, token, recipient) == 0
            && Outgoing(recorded, token, sender) == value && Incoming(recorded, token, recipient) == value
            && Outgoing(mined, token, sender) == 0 && Incoming(mined, token, recipient) == 0
  {
    var cache := Some(Cache(sender, recipient, token, token, value, value));
    RecordedThenMined(tx, sender, recipient, token, value);
    OneRowPending(Row(tx, {}, None), token, sender);
    OneRowPending(Row(tx, {}, None), token, recipient);
    OneRowPending(Row(tx, {}, cache), token, sender);
    OneRowPending(Row(tx, {}, cache), token, recipient);
    OneRowPending(Row(tx, {IN_NETWORK, FINAL}, cache), token, sender);
    OneRowPending(Row(tx, {IN_NETWORK, FINAL}, cache), token, recipient);
  }
}
