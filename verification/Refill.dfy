/** Funding the gas of an account: at most one refill at a time carries the safe amount. */
module Refill {
  import opened Basics
  import opened Queue
  import Locks

  // A row of the queue, with what is remembered of it if it is a refill: the gas asked for
  // at once, and whether the safe amount was added to it.
  datatype Entry = Entry(row: Row, refill: Option<Request>)

  datatype Request = Request(recipient: Address, immediate: nat, safe: bool)

  // safe_gas_refill_amount: five times the safe threshold.
  const SAFE_REFILL: nat := 60000 * 3 * 5

  // Price and limit of gas, as the gas oracle gives them.
  datatype Fee = Fee(price: nat, limit: nat)

  const GIFTER: Address := Address("gas gifter")

  // A row that keeps a new refill from carrying the safe amount: live, with value, to the
  // recipient, in whatever token; a row without a cache row is not seen.
  predicate Filling(row: Row, recipient: Address) {
    && Live(row.status) && row.cache.Some?
    && row.cache.value.fromValue != 0 && row.cache.value.recipient == recipient
  }

  predicate AlreadyFilling(queue: seq<Entry>, recipient: Address) {
    exists i :: 0 <= i < |queue| && Filling(queue[i].row, recipient)
  }

  function Amount(queue: seq<Entry>, recipient: Address, immediate: nat): nat {
    (if AlreadyFilling(queue, recipient) then 0 else SAFE_REFILL) + immediate
  }

  function RefillEntry(queue: seq<Entry>, recipient: Address, immediate: nat, nonce: nat, fee: Fee): Entry {
    Entry(Row(Tx(GIFTER, nonce, fee.price, fee.limit, recipient, Amount(queue, recipient, immediate), ""),
              PENDING, None),
          Some(Request(recipient, immediate, !AlreadyFilling(queue, recipient))))
  }

  predicate HasEntry(queue: seq<Entry>, tx: Tx) {
    exists i :: 0 <= i < |queue| && queue[i].row.tx == tx
  }

  datatype RefillResult =
    | Refilled(amount: nat)
    | GifterBroke           // SeppukuError: the gifter has less than the safe amount
    | NoReservation         // IntegrityError: no nonce is reserved for the gifter under the task
    | QueueLocked           // LockedError from queue_create
    | AlreadyQueued         // IntegrityError: the transaction is in the queue

  // The cache row that cache_gas_data records for a gas transfer.
  function Recorded(row: Row): Row {
    row.(cache := Some(Cache(row.tx.sender, row.tx.recipient, ZERO_ADDRESS, ZERO_ADDRESS, row.tx.value, row.tx.value)))
  }

  class Gifter {
    var queue: seq<Entry>

    constructor (entries: seq<Entry>)
      ensures queue == entries
    {
      queue := entries;
    }

    /** Queue a gas transfer to the recipient with the nonce reserved for it, or fail without a
        trace. The balance is the gifter's. */
    method RefillGas(recipient: Address, immediate: nat, balance: nat, reserved: Option<nat>, fee: Fee,
                     locks: Locks.Table, chain: string) returns (r: RefillResult)
      modifies this
      ensures r.GifterBroke? <==> balance < SAFE_REFILL
      ensures r.NoReservation? <==> balance >= SAFE_REFILL && reserved == None
      ensures r.QueueLocked? <==>
              var global, own := Locks.Key(chain, ZERO_ADDRESS), Locks.Key(chain, GIFTER);
              && balance >= SAFE_REFILL && reserved.Some?
              && ((global in locks && Locks.QUEUE <= locks[global]) || (own in locks && Locks.QUEUE <= locks[own]))
      ensures !r.Refilled? ==> queue == old(queue)
      ensures r.AlreadyQueued? || r.Refilled? ==>
                && reserved.Some?
                && var filled := exists i ::
                     && 0 <= i < |old(queue)|
                     && var row := old(queue)[i].row;
                     && FINAL !in row.status && OBSOLETE !in row.status && row.cache.Some?
                     && row.cache.value.recipient == recipient && row.cache.value.fromValue != 0;
                   var amount := if filled then immediate else SAFE_REFILL + immediate;
                   var tx := Tx(GIFTER, reserved.value, fee.price, fee.limit, recipient, amount, "");
                   && (r.AlreadyQueued? <==> exists i :: 0 <= i < |old(queue)| && old(queue)[i].row.tx == tx)
                   && (r.Refilled? ==>
                         && r.amount == amount
                         && queue == old(queue) +
                                     [Entry(Row(tx, {}, None), Some(Request(recipient, immediate, !filled)))])
      ensures r.Refilled? ==> queue == old(queue) + [RefillEntry(old(queue), recipient, immediate, reserved.value, fee)]
    {
      var c := CountFilling(recipient);
      var zeroAmount := c > 0;
      var amount := 0;
      if !zeroAmount {
        amount := SAFE_REFILL;
      }
      amount := amount + immediate;
      if balance < SAFE_REFILL {
        return GifterBroke;
      }
      if reserved == None {
        return NoReservation;
      }
      var tx := Tx(GIFTER, reserved.value, fee.price, fee.limit, recipient, amount, "");
      Locks.AggregateHoldsBack(locks, chain, Locks.QUEUE, GIFTER);
      if Locks.CheckAggregate(locks, chain, Locks.QUEUE, GIFTER) != {} {
        return QueueLocked;
      }
      if HasEntry(queue, tx) {
        return AlreadyQueued;
      }
      queue := queue + [Entry(Row(tx, PENDING, None), Some(Request(recipient, immediate, !zeroAmount)))];
      r := Refilled(amount);
    }

    method CountFilling(recipient: Address) returns (c: nat)
      ensures c > 0 <==> AlreadyFilling(queue, recipient)
    {
      c := 0;
      for i := 0 to |queue|
        invariant c > 0 <==> exists j :: 0 <= j < i && Filling(queue[j].row, recipient)
      {
        if Filling(queue[i].row, recipient) {
          c := c + 1;
        }
      }
    }
  }

  /** The amount is just what is asked for exactly if some row with neither FINAL nor OBSOLETE has
      a cache row with this recipient and a value; else the safe amount is added. */
  lemma AmountExactly(queue: seq<Entry>, recipient: Address, immediate: nat)
    ensures Amount(queue, recipient, immediate) ==
            if exists i ::
                 && 0 <= i < |queue|
                 && var row := queue[i].row;
                 && FINAL !in row.status && OBSOLETE !in row.status && row.cache.Some?
                 && row.cache.value.recipient == recipient && row.cache.value.fromValue != 0
            then immediate else 60000 * 3 * 5 + immediate
  {
    assert AlreadyFilling(queue, recipient) <==> exists i :: 0 <= i < |queue| && Filling(queue[i].row, recipient);
  }

  /** Rows for other recipients do not change the amount, nor do rows that are dead, have no cache
      row, or carry no value; a live one for the recipient leaves just what is asked for. */
  lemma OneMoreRow(queue: seq<Entry>, e: Entry, recipient: Address, immediate: nat)
    ensures var row := e.row;
            Amount(queue + [e], recipient, immediate) ==
            if FINAL !in row.status && OBSOLETE !in row.status && row.cache.Some? &&
               row.cache.value.recipient == recipient && row.cache.value.fromValue != 0
            then immediate else Amount(queue, recipient, immediate)
  {
    var more := queue + [e];
    assert more[|queue|] == e;
    assert forall i :: 0 <= i < |queue| ==> more[i] == queue[i];
    assert AlreadyFilling(more, recipient) <==> AlreadyFilling(queue, recipient) || Filling(e.row, recipient);
  }

  /** The cache row of a gas transfer has its sender, recipient and value, and no token. */
  lemma RecordedFieldByField(row: Row)
    ensures Recorded(row) ==
            Row(row.tx, row.status, Some(Cache(row.tx.sender, row.tx.recipient, ZERO_ADDRESS, ZERO_ADDRESS,
                                               row.tx.value, row.tx.value)))
  {
  }

  /** A retry, a resend and a shift copy a refill with its recipient, value, gas and cache row; any
      other row enters the queue as it is. */
  lemma CopiesFieldByField(e: Entry, gasPrice: nat, nonce: nat)
    ensures var t := e.row.tx;
            && ResentEntry(e, gasPrice) ==
               Entry(Row(Tx(t.sender, t.nonce, gasPrice, t.gas, t.recipient, t.value, t.data), {}, e.row.cache),
                     e.refill)
            && ShiftedEntry(e, nonce) ==
               Entry(Row(Tx(t.sender, nonce, t.gasPrice + 1, t.gas, t.recipient, t.value, t.data), {}, e.row.cache),
                     e.refill)
    ensures Apply([e], OtherRow(e.row)) == [e, Entry(e.row, None)]
  {
  }

  // ----- runs -----

  datatype Step =
    // a refill task that does not fail, with the gas asked for at once
    | AskRefill(recipient: Address, immediate: nat, nonce: nat, fee: Fee)
    // the cache task of a refill
    | RecordCache(i: nat)
    // any other row enters the queue, with or without its cache row
    | OtherRow(row: Row)
    // the status of a row changes; a dead row stays dead
    | ChangeStatus(i: nat, status: Status)
    // a retry: a row is obsoleted and a copy at another gas price takes its place
    | Retry(i: nat, gasPrice: nat)
    // a resend asked for by hand, forced or not: the copy is queued and the row, dead or alive,
    // stays as it is; if it is closed too, that is a change of status
    | Resend(i: nat, gasPrice: nat)
    // a nonce shift: a row, dead or alive, is cancelled and a copy at another nonce is queued
    | Shift(i: nat, nonce: nat)

  predicate Enabled(queue: seq<Entry>, step: Step) {
    match step
    case AskRefill(_, _, _, _) => true
    case RecordCache(i) => i < |queue| && queue[i].refill.Some? && queue[i].row.cache.None?
    case OtherRow(_) => true
    case ChangeStatus(i, s) => i < |queue| && (Live(s) ==> Live(queue[i].row.status))
    case Retry(i, _) => i < |queue|
    case Resend(i, _) => i < |queue|
    case Shift(i, _) => i < |queue| && queue[i].row.cache.Some?
  }

  function Apply(queue: seq<Entry>, step: Step): seq<Entry>
    requires Enabled(queue, step)
  {
    match step
    case AskRefill(r, g, n, p) => queue + [RefillEntry(queue, r, g, n, p)]
    case RecordCache(i) => queue[i := queue[i].(row := Recorded(queue[i].row))]
    case OtherRow(row) => queue + [Entry(row, None)]
    case ChangeStatus(i, s) => queue[i := queue[i].(row := queue[i].row.(status := s))]
    case Retry(i, p) => queue[i := queue[i].(row := Obsoleted(queue[i].row))] + [ResentEntry(queue[i], p)]
    case Resend(i, p) => queue + [ResentEntry(queue[i], p)]
    case Shift(i, n) => queue[i := queue[i].(row := Cancelled(queue[i].row))] + [ShiftedEntry(queue[i], n)]
  }

  function ResentEntry(e: Entry, gasPrice: nat): Entry {
    e.(row := Row(e.row.tx.(gasPrice := gasPrice), PENDING, e.row.cache))
  }

  function ShiftedEntry(e: Entry, nonce: nat): Entry {
    e.(row := Row(e.row.tx.(nonce := nonce, gasPrice := e.row.tx.gasPrice + 1), PENDING, e.row.cache))
  }

  // A live refill of the recipient, and one that carries the safe amount.
  predicate LiveRefill(e: Entry, recipient: Address) {
    e.refill.Some? && e.refill.value.recipient == recipient && Live(e.row.status)
  }

  predicate LiveSafe(e: Entry, recipient: Address) {
    LiveRefill(e, recipient) && e.refill.value.safe
  }

  // How many live refills of the recipient carry the safe amount; what they all carry
  // together; and what was asked for at once in them.
  function SafeCount(queue: seq<Entry>, recipient: Address): nat {
    if queue == [] then 0
    else SafeCount(queue[..|queue| - 1], recipient) + if LiveSafe(queue[|queue| - 1], recipient) then 1 else 0
  }

  function LiveValue(queue: seq<Entry>, recipient: Address): nat {
    if queue == [] then 0
    else
      var e := queue[|queue| - 1];
      LiveValue(queue[..|queue| - 1], recipient) + if LiveRefill(e, recipient) then e.row.tx.value else 0
  }

  function LiveImmediate(queue: seq<Entry>, recipient: Address): nat {
    if queue == [] then 0
    else
      var e := queue[|queue| - 1];
      LiveImmediate(queue[..|queue| - 1], recipient) + if LiveRefill(e, recipient) then e.refill.value.immediate else 0
  }

  // A refill row carries what was decided for it, before and after its cache row.
  ghost predicate EntrySound(e: Entry) {
    e.refill.Some? ==>
      && e.row.tx.recipient == e.refill.value.recipient
      && e.row.tx.value == (if e.refill.value.safe then SAFE_REFILL else 0) + e.refill.value.immediate
      && (e.row.cache.Some? ==> e.row.cache == Recorded(e.row).cache)
  }

  ghost predicate AllSound(queue: seq<Entry>) {
    forall i :: 0 <= i < |queue| ==> EntrySound(queue[i])
  }

  // Every live refill of the recipient has its cache row.
  ghost predicate AllRecorded(queue: seq<Entry>, recipient: Address) {
    forall i :: 0 <= i < |queue| && LiveRefill(queue[i], recipient) ==> queue[i].row.cache.Some?
  }

  ghost predicate Runs(queue: seq<Entry>, steps: seq<Step>)
    decreases |steps|
  {
    steps == [] || (Enabled(queue, steps[0]) && Runs(Apply(queue, steps[0]), steps[1..]))
  }

  predicate SafeRefill(e: Entry) {
    e.refill.Some? && e.refill.value.safe
  }

  // The step brings a second live refill with the safe amount: a new refill while nothing live
  // and recorded fills the recipient, a retry or shift of a dead one, or a resend by hand of any,
  // when there is a live one already.
  predicate Doubles(queue: seq<Entry>, step: Step)
    requires Enabled(queue, step)
  {
    match step
    case AskRefill(r, _, _, _) => !AlreadyFilling(queue, r) && SafeCount(queue, r) > 0
    case Retry(i, _) => RevivesBesideLive(queue, i)
    case Shift(i, _) => RevivesBesideLive(queue, i)
    case Resend(i, _) => SafeRefill(queue[i]) && SafeCount(queue, queue[i].refill.value.recipient) > 0
    case _ => false
  }

  // The row is a dead refill with the safe amount, and its recipient has a live one.
  predicate RevivesBesideLive(queue: seq<Entry>, i: nat)
    requires i < |queue|
  {
    SafeRefill(queue[i]) && !Live(queue[i].row.status) && SafeCount(queue, queue[i].refill.value.recipient) > 0
  }

  ghost predicate NeverDoubles(queue: seq<Entry>, steps: seq<Step>)
    requires Runs(queue, steps)
    decreases |steps|
  {
    steps != [] ==> !Doubles(queue, steps[0]) && NeverDoubles(Apply(queue, steps[0]), steps[1..])
  }

  // Each refill starts only when the earlier live ones of its recipient are recorded, and no
  // retry, shift or resend puts a refill with the safe amount beside a live one.
  ghost predicate WaitsForCache(queue: seq<Entry>, steps: seq<Step>)
    requires Runs(queue, steps)
    decreases |steps|
  {
    steps != [] ==>
      && (steps[0].AskRefill? ==> AllRecorded(queue, steps[0].recipient))
      && (!steps[0].AskRefill? ==> !Doubles(queue, steps[0]))
      && WaitsForCache(Apply(queue, steps[0]), steps[1..])
  }

  // At most one live refill of every recipient carries the safe amount.
  ghost predicate OneSafe(queue: seq<Entry>) {
    forall r :: SafeCount(queue, r) <= 1
  }

  ghost predicate AlwaysOneSafe(queue: seq<Entry>, steps: seq<Step>)
    requires Runs(queue, steps)
    decreases |steps|
  {
    OneSafe(queue) && (steps != [] ==> AlwaysOneSafe(Apply(queue, steps[0]), steps[1..]))
  }

  ghost function After(queue: seq<Entry>, steps: seq<Step>): seq<Entry>
    requires Runs(queue, steps)
    decreases |steps|
  {
    if steps == [] then queue else After(Apply(queue, steps[0]), steps[1..])
  }

  lemma SafeCountAppend(queue: seq<Entry>, e: Entry, r: Address)
    ensures SafeCount(queue + [e], r) == SafeCount(queue, r) + if LiveSafe(e, r) then 1 else 0
  {
    assert (queue + [e])[..|queue|] == queue;
  }

  lemma {:induction false} SafeCountUpdate(queue: seq<Entry>, i: nat, e: Entry, r: Address)
    requires i < |queue|
    ensures SafeCount(queue[i := e], r) + (if LiveSafe(queue[i], r) then 1 else 0) ==
            SafeCount(queue, r) + if LiveSafe(e, r) then 1 else 0
  {
    var last := |queue| - 1;
    if i == last {
      assert queue[i := e][..last] == queue[..last];
    } else {
      SafeCountUpdate(queue[..last], i, e, r);
      assert queue[i := e][..last] == queue[..last][i := e];
    }
  }

  lemma {:induction false} SafeCountZero(queue: seq<Entry>, r: Address)
    ensures SafeCount(queue, r) == 0 <==> forall i :: 0 <= i < |queue| ==> !LiveSafe(queue[i], r)
  {
    if queue == [] {
    } else {
      var front := queue[..|queue| - 1];
      SafeCountZero(front, r);
      assert forall i :: 0 <= i < |front| ==> front[i] == queue[i];
      assert LiveSafe(queue[|queue| - 1], r) || SafeCount(queue, r) == SafeCount(front, r);
    }
  }

  // A live refill with the safe amount, once recorded, keeps later ones from carrying it.
  lemma RecordedSafeIsFilling(queue: seq<Entry>, r: Address)
    requires AllSound(queue) && AllRecorded(queue, r) && !AlreadyFilling(queue, r)
    ensures SafeCount(queue, r) == 0
  {
    forall i | 0 <= i < |queue| ensures !LiveSafe(queue[i], r) {
      assert EntrySound(queue[i]) && !Filling(queue[i].row, r);
    }
    SafeCountZero(queue, r);
  }

  predicate SafeFor(e: Entry, r: Address) {
    SafeRefill(e) && e.refill.value.recipient == r
  }

  // What a step adds to the count: one for a new safe refill, one for a dead one brought back,
  // one for a resent one.
  function SafeAdded(queue: seq<Entry>, step: Step, r: Address): nat
    requires Enabled(queue, step)
  {
    match step
    case AskRefill(q, _, _, _) => if q == r && !AlreadyFilling(queue, r) then 1 else 0
    case Retry(i, _) => if SafeFor(queue[i], r) && !Live(queue[i].row.status) then 1 else 0
    case Shift(i, _) => if SafeFor(queue[i], r) && !Live(queue[i].row.status) then 1 else 0
    case Resend(i, _) => if SafeFor(queue[i], r) then 1 else 0
    case _ => 0
  }

  lemma SafeCountAfterCopy(queue: seq<Entry>, i: nat, closed: Entry, copy: Entry, r: Address)
    requires i < |queue| && !Live(closed.row.status)
    ensures SafeCount(queue[i := closed] + [copy], r) + (if LiveSafe(queue[i], r) then 1 else 0) ==
            SafeCount(queue, r) + if LiveSafe(copy, r) then 1 else 0
  {
    SafeCountUpdate(queue, i, closed, r);
    SafeCountAppend(queue[i := closed], copy, r);
  }

  lemma SafeCountAfterStep(queue: seq<Entry>, step: Step, r: Address)
    requires Enabled(queue, step)
    ensures SafeCount(Apply(queue, step), r) <= SafeCount(queue, r) + SafeAdded(queue, step, r)
    ensures SafeAdded(queue, step, r) > 0 ==>
            SafeCount(Apply(queue, step), r) == SafeCount(queue, r) + SafeAdded(queue, step, r)
  {
    match step
    case AskRefill(q, g, n, p) => SafeCountAppend(queue, RefillEntry(queue, q, g, n, p), r);
    case RecordCache(i) => SafeCountUpdate(queue, i, queue[i].(row := Recorded(queue[i].row)), r);
    case OtherRow(row) => SafeCountAppend(queue, Entry(row, None), r);
    case ChangeStatus(i, s) => SafeCountUpdate(queue, i, queue[i].(row := queue[i].row.(status := s)), r);
    case Retry(i, p) =>
      SafeCountAfterCopy(queue, i, queue[i].(row := Obsoleted(queue[i].row)), ResentEntry(queue[i], p), r);
    case Resend(i, p) => SafeCountAppend(queue, ResentEntry(queue[i], p), r);
    case Shift(i, n) =>
      SafeCountAfterCopy(queue, i, queue[i].(row := Cancelled(queue[i].row)), ShiftedEntry(queue[i], n), r);
  }

  lemma StepKeepsOneSafeExactly(queue: seq<Entry>, step: Step)
    requires Enabled(queue, step) && OneSafe(queue)
    ensures OneSafe(Apply(queue, step)) <==> !Doubles(queue, step)
  {
    forall r ensures SafeCount(Apply(queue, step), r) <= 1 || (Doubles(queue, step) && SafeAdded(queue, step, r) > 0) {
      SafeCountAfterStep(queue, step, r);
      assert SafeCount(queue, r) <= 1;
    }
    if Doubles(queue, step) {
      var r := if step.AskRefill? then step.recipient else queue[step.i].refill.value.recipient;
      SafeCountAfterStep(queue, step, r);
      assert SafeCount(Apply(queue, step), r) > 1;
    }
  }

  /** Over any run at all, at most one live refill of every recipient carries the safe amount in
      every state exactly if no step doubles one: no refill is made while one that nothing shows
      is live, no retry or shift brings a dead one back beside a live one, and none is resent by
      hand beside a live one. */
  lemma {:induction false} OneSafeExactlyWhenNoneDoubles(queue: seq<Entry>, steps: seq<Step>)
    requires Runs(queue, steps) && OneSafe(queue)
    ensures AlwaysOneSafe(queue, steps) <==> NeverDoubles(queue, steps)
    decreases |steps|
  {
    if steps == [] {
    } else {
      StepKeepsOneSafeExactly(queue, steps[0]);
      if !Doubles(queue, steps[0]) {
        OneSafeExactlyWhenNoneDoubles(Apply(queue, steps[0]), steps[1..]);
      }
    }
  }

  lemma SoundAfterStep(queue: seq<Entry>, step: Step)
    requires Enabled(queue, step) && AllSound(queue)
    ensures AllSound(Apply(queue, step))
  {
    var after := Apply(queue, step);
    forall i | 0 <= i < |after| ensures EntrySound(after[i]) {
      if i < |queue| {
        assert EntrySound(queue[i]);
      } else if step.Retry? || step.Shift? || step.Resend? {
        assert EntrySound(queue[step.i]);
      }
    }
  }

  /** Over any run in which each refill waits for the cache rows of the earlier ones, and none is
      brought back or resent beside another, at most one live refill of a recipient carries the
      safe amount. */
  lemma {:induction false} OneSafeRefillAtATime(queue: seq<Entry>, steps: seq<Step>)
    requires AllSound(queue) && OneSafe(queue) && Runs(queue, steps) && WaitsForCache(queue, steps)
    ensures AllSound(After(queue, steps)) && OneSafe(After(queue, steps)) && NeverDoubles(queue, steps)
    decreases |steps|
  {
    if steps == [] {
    } else {
      if steps[0].AskRefill? && !AlreadyFilling(queue, steps[0].recipient) {
        RecordedSafeIsFilling(queue, steps[0].recipient);
      }
      StepKeepsOneSafeExactly(queue, steps[0]);
      SoundAfterStep(queue, steps[0]);
      OneSafeRefillAtATime(Apply(queue, steps[0]), steps[1..]);
    }
  }

  // What live refills carry is the safe amount for each that has it, and what was asked for.
  lemma {:induction false} LiveValueSplits(queue: seq<Entry>, r: Address)
    requires AllSound(queue)
    ensures LiveValue(queue, r) == SAFE_REFILL * SafeCount(queue, r) + LiveImmediate(queue, r)
  {
    if queue == [] {
    } else {
      var front := queue[..|queue| - 1];
      forall i | 0 <= i < |front| ensures EntrySound(front[i]) {
        assert EntrySound(queue[i]);
      }
      LiveValueSplits(front, r);
      assert EntrySound(queue[|queue| - 1]);
    }
  }

  /** In such a run from an empty queue, the live refills of a recipient never carry more than
      the safe amount once plus what they were asked for at once. */
  lemma RefillsAreBounded(steps: seq<Step>, r: Address)
    requires Runs([], steps) && WaitsForCache([], steps)
    ensures LiveValue(After([], steps), r) <= SAFE_REFILL + LiveImmediate(After([], steps), r)
  {
    OneSafeRefillAtATime([], steps);
    LiveValueSplits(After([], steps), r);
  }

  /** Waiting is needed: a refill keeps the bound exactly if something live and recorded fills
      the recipient, or no live refill carries the safe amount yet. */
  lemma RefillKeepsOneSafeExactly(queue: seq<Entry>, recipient: Address, immediate: nat, nonce: nat, fee: Fee)
    requires SafeCount(queue, recipient) <= 1
    ensures SafeCount(Apply(queue, AskRefill(recipient, immediate, nonce, fee)), recipient) <= 1
            <==> AlreadyFilling(queue, recipient) || SafeCount(queue, recipient) == 0
  {
    SafeCountAppend(queue, RefillEntry(queue, recipient, immediate, nonce, fee), recipient);
  }

  /** Two refills of one account before the first is recorded both carry the safe amount. */
  lemma TwoRefillsBeforeCache(recipient: Address, immediate: nat, fee: Fee)
    ensures var one := Apply([], AskRefill(recipient, immediate, 0, fee));
            var two := Apply(one, AskRefill(recipient, immediate, 1, fee));
            SafeCount(two, recipient) == 2
  {
    var one := Apply([], AskRefill(recipient, immediate, 0, fee));
    SafeCountAppend([], RefillEntry([], recipient, immediate, 0, fee), recipient);
    SafeCountAppend(one, RefillEntry(one, recipient, immediate, 1, fee), recipient);
  }

  /** A shift, a retry or a forced resend of a dead refill beside a live one makes two that carry
      the safe amount. */
  lemma DeadRefillDoubles(dead: Entry, alive: Entry, recipient: Address, step: Step)
    requires LiveSafe(alive, recipient) && SafeFor(dead, recipient)
    requires dead.row.status == {OBSOLETE} && dead.row.cache.Some?
    requires (step.Shift? || step.Retry? || step.Resend?) && step.i == 0
    ensures SafeCount([dead, alive], recipient) == 1
    ensures SafeCount(Apply([dead, alive], step), recipient) == 2
  {
    assert [dead, alive][..1] == [dead] && [dead][..0] == [];
    assert SafeCount([dead], recipient) == 0;
    SafeCountAfterStep([dead, alive], step, recipient);
  }

  /** A refill fills its recipient from the time its cache row is recorded until it is closed. */
  lemma FillsUntilClosed(r: Address, immediate: nat, nonce: nat, fee: Fee)
    ensures var asked := Apply([], AskRefill(r, immediate, nonce, fee));
            var recorded := Apply(asked, RecordCache(0));
            var mined := Apply(recorded, ChangeStatus(0, {IN_NETWORK, FINAL}));
            && Amount(asked, r, 7) == SAFE_REFILL + 7
            && Amount(recorded, r, 7) == 7
            && Amount(mined, r, 7) == SAFE_REFILL + 7
  {
    var asked := Apply([], AskRefill(r, immediate, nonce, fee));
    var recorded := Apply(asked, RecordCache(0));
    assert !AlreadyFilling([], r);
    assert Filling(recorded[0].row, r);
  }
}
