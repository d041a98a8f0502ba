/** Closing a hole in the nonces of a sender: one transaction is cancelled and every later one
    is replaced by a copy with a lower nonce, with one commit per replacement. */
module Shift {
  import opened Basics
  import opened Queue
  import Balances
  import Locks
  import Dispatch

  // A row that the shift picks up: of the sender, dead or alive, from the given nonce on.
  predicate Selected(rows: seq<Row>, i: nat, sender: Address, from: int) {
    i < |rows| && rows[i].cache.Some? && rows[i].cache.value.sender == sender && rows[i].tx.nonce >= from
  }

  // The query result names rows of the queue, each once, and the delta can be taken off them.
  ghost predicate Movable(rows: seq<Row>, order: seq<nat>, delta: int) {
    && (forall j :: 0 <= j < |order| ==> order[j] < |rows| && rows[order[j]].tx.nonce >= delta)
    && (forall j, k :: 0 <= j < k < |order| ==> order[j] != order[k])
  }

  // What the query returns: the selected rows, each once, in ascending order of nonce.
  ghost predicate IsQueryResult(rows: seq<Row>, sender: Address, from: int, order: seq<nat>) {
    && (forall j :: 0 <= j < |order| ==> Selected(rows, order[j], sender, from))
    && (forall i: nat :: Selected(rows, i, sender, from) ==> i in order)
    && (forall j, k :: 0 <= j < k < |order| ==> order[j] != order[k])
    && (forall j, k :: 0 <= j < k < |order| ==> rows[order[j]].tx.nonce <= rows[order[k]].tx.nonce)
  }

  // The copy of a transaction at its new nonce, one unit of price higher.
  function Moved(tx: Tx, delta: int): Tx
    requires tx.nonce >= delta
  {
    tx.(nonce := tx.nonce - delta, gasPrice := tx.gasPrice + 1)
  }

  // One replacement: the copy of the original is queued with its cache row, and the original,
  // at index i, is cancelled.
  function Replaced(rows: seq<Row>, i: nat, original: Row, delta: int): seq<Row>
    requires i < |rows| && original.tx.nonce >= delta
  {
    rows[i := Cancelled(rows[i])] + [Row(Moved(original.tx, delta), PENDING, original.cache)]
  }

  // The queue after the first k replacements; what was there before keeps its place.
  ghost function AfterMoves(rows: seq<Row>, origin: nat, order: seq<nat>, delta: int, k: nat): (r: seq<Row>)
    requires origin < |rows| && Movable(rows, order, delta) && k <= |order|
    ensures |r| == |rows| + k
  {
    if k == 0 then rows[origin := Cancelled(rows[origin])]
    else Replaced(AfterMoves(rows, origin, order, delta, k - 1), order[k - 1], rows[order[k - 1]], delta)
  }

  // What is committed after k replacements: the cancellation is not committed by itself, only
  // together with the first replacement.
  ghost function Committed(rows: seq<Row>, origin: nat, order: seq<nat>, delta: int, k: nat): seq<Row>
    requires origin < |rows| && Movable(rows, order, delta) && k <= |order|
  {
    if k == 0 then rows else AfterMoves(rows, origin, order, delta, k)
  }

  // The snapshots committed by the first k replacements.
  ghost function CommitsOf(rows: seq<Row>, origin: nat, order: seq<nat>, delta: int, k: nat): (r: seq<seq<Row>>)
    requires origin < |rows| && Movable(rows, order, delta) && k <= |order|
    ensures |r| == k && (k > 0 ==> r[k - 1] == AfterMoves(rows, origin, order, delta, k))
  {
    if k == 0 then []
    else CommitsOf(rows, origin, order, delta, k - 1) + [AfterMoves(rows, origin, order, delta, k)]
  }

  // The gas budget of the first k replacements.
  ghost function GasTotal(rows: seq<Row>, order: seq<nat>, delta: int, k: nat): nat
    requires Movable(rows, order, delta) && k <= |order|
  {
    if k == 0 then 0
    else
      var tx := Moved(rows[order[k - 1]].tx, delta);
      GasTotal(rows, order, delta, k - 1) + tx.gasPrice * tx.gas
  }

  // Queueing and sending locked for the sender.
  function WithBothLocks(t: Locks.Table, chain: string, sender: Address): Locks.Table {
    Locks.Set(Locks.Set(t, Locks.Key(chain, sender), Locks.QUEUE), Locks.Key(chain, sender), Locks.SEND)
  }

  /** The shift holds back the sender's own queueing, whatever locks there were, and its sending
      exactly if every lock row of the sender on another chain has the SEND bit; it leaves every
      other lock, and every other sender, as it was. */
  lemma ShiftHoldsBackSender(t: Locks.Table, chain: string, sender: Address, k: Locks.Key, other: Address)
    requires k != Locks.Key(chain, sender) && other != sender && sender != ZERO_ADDRESS
    ensures var locked := WithBothLocks(t, chain, sender);
            && Locks.CheckAggregate(locked, chain, Locks.QUEUE, sender) == Locks.QUEUE
            && Locks.Check(locked, Locks.Key(chain, sender), Locks.SEND) == Locks.SEND
            && (!Dispatch.MaySend(locked, sender) <==>
                  forall l | l in t && l.address == sender && l.chain != chain :: Locks.SEND <= t[l])
            && Locks.Mask(locked, k) == Locks.Mask(t, k)
            && (Dispatch.MaySend(locked, other) <==> Dispatch.MaySend(t, other))
            && Locks.CheckAggregate(locked, chain, Locks.QUEUE, other) ==
               Locks.CheckAggregate(t, chain, Locks.QUEUE, other)
  {
    var locked := WithBothLocks(t, chain, sender);
    assert locked[Locks.Key(chain, sender)] == Locks.Mask(t, Locks.Key(chain, sender)) + Locks.QUEUE + Locks.SEND;
    Locks.AggregateHoldsBack(locked, chain, Locks.QUEUE, sender);
    assert locked[Locks.Key(chain, sender)] * Locks.SEND == Locks.SEND;
    Dispatch.SendLockHoldsExactly(locked, chain, sender);
    forall l | l in locked && l != Locks.Key(chain, sender) ensures l in t && locked[l] == t[l] {
    }
    forall l | l in t && l != Locks.Key(chain, sender) ensures l in locked && locked[l] == t[l] {
    }
  }

  // The copy of the j-th row of the order is in the queue already.
  ghost predicate Taken(rows: seq<Row>, order: seq<nat>, delta: int, j: nat)
    requires Movable(rows, order, delta) && j < |order|
  {
    HasTx(rows, Moved(rows[order[j]].tx, delta))
  }

  // The j-th replacement cannot be made: its copy is there already, or the library refuses to
  // cancel its original.
  ghost predicate Blocked(rows: seq<Row>, order: seq<nat>, delta: int, refused: set<nat>, j: nat)
    requires Movable(rows, order, delta) && j < |order|
  {
    Taken(rows, order, delta, j) || order[j] in refused
  }

  // Where the shift stands after k replacements, none of which was blocked.
  ghost predicate Moving(before: seq<Row>, origin: nat, order: seq<nat>, delta: int, refused: set<nat>, k: nat,
                         rows: seq<Row>, commits: seq<seq<Row>>, gasTotal: nat)
    requires origin < |before| && Movable(before, order, delta) && k <= |order|
  {
    && (forall j :: 0 <= j < k ==> !Blocked(before, order, delta, refused, j))
    && rows == AfterMoves(before, origin, order, delta, k)
    && commits == CommitsOf(before, origin, order, delta, k)
    && gasTotal == GasTotal(before, order, delta, k)
  }

  // How one replacement goes: the insert of the copy fails, or the cancellation does.
  datatype Outcome = Made | Collides | Refuses

  datatype Result =
    | Shifted(gasTotal: nat)
    | Collided(at: nat)      // a replacement was in the queue already: the insert fails there
    | Refused(at: nat)       // the library refused to cancel an original
    | OriginRefused          // it refused to cancel the given transaction
    | NotLocal               // the transaction to cancel is not in the queue

  class Shifter {
    var rows: seq<Row>             // as the session sees them
    var commits: seq<seq<Row>>     // as committed, once per replacement

    var locks: Locks.Table
    const chain: string

    constructor (queue: seq<Row>, table: Locks.Table, name: string)
      ensures rows == queue && commits == [] && locks == table && chain == name
    {
      rows := queue;
      commits := [];
      locks := table;
      chain := name;
    }

    /** Queue the copy of one row, cancel the row, and give the copy its cache row. */
    method Replace(i: nat, delta: int, refuse: bool) returns (fee: nat, r: Outcome)
      requires i < |rows| && rows[i].tx.nonce >= delta
      modifies this`rows
      ensures var t := old(rows)[i].tx;
              var copy := Tx(t.sender, t.nonce - delta, t.gasPrice + 1, t.gas, t.recipient, t.value, t.data);
              && (r == Collides <==> exists j :: 0 <= j < |old(rows)| && old(rows)[j].tx == copy)
              && (r != Collides ==> (r == Refuses <==> refuse))
              && (r == Collides ==> rows == old(rows))
              && (r == Refuses ==> rows == old(rows) + [Row(copy, {}, None)])
              && (r == Made ==>
                    rows == old(rows)[i := Cancelled(old(rows)[i])] + [Row(copy, {}, old(rows)[i].cache)])
              && fee == (t.gasPrice + 1) * t.gas
    {
      var previous := rows[i];
      var tx := previous.tx;
      tx := tx.(gasPrice := tx.gasPrice + 1);
      tx := tx.(nonce := tx.nonce - delta);
      fee := tx.gasPrice * tx.gas;
      if HasTx(rows, tx) {
        return fee, Collides;
      }
      rows := rows + [Row(tx, PENDING, None)];
      if refuse {
        return fee, Refuses;
      }
      rows := rows[i := Cancelled(previous)];
      rows := rows[|rows| - 1 := rows[|rows| - 1].(cache := previous.cache)];
      r := Made;
    }

    method ReplaceAndCommit(i: nat, delta: int, refuse: bool) returns (fee: nat, r: Outcome)
      requires i < |rows| && rows[i].tx.nonce >= delta
      modifies this`rows, this`commits
      ensures r ==
              if HasTx(old(rows), Moved(old(rows)[i].tx, delta)) then Collides else if refuse then Refuses else Made
      ensures r == Made ==> rows == Replaced(old(rows), i, old(rows)[i], delta)
      ensures commits == if r == Made then old(commits) + [rows] else old(commits)
      ensures fee == Moved(old(rows)[i].tx, delta).gasPrice * old(rows)[i].tx.gas
    {
      fee, r := Replace(i, delta, refuse);
      if r == Made {
        commits := commits + [rows];
      }
    }

    /** The loop of the shift: replace the rows in the given order, committing each time, and
        stop at the first that cannot be replaced. */
    method MoveAll(ghost before: seq<Row>, ghost origin: nat, order: seq<nat>, delta: int, refused: set<nat>)
      returns (done: nat, gasTotal: nat, r: Outcome)
      requires origin < |before| && UniqueTxs(before) && Movable(before, order, delta)
      requires rows == AfterMoves(before, origin, order, delta, 0) && commits == []
      modifies this`rows, this`commits
      ensures done <= |order| && (r == Made <==> done == |order|)
      ensures r != Made ==> Blocked(before, order, delta, refused, done)
      ensures r == Collides ==> Taken(before, order, delta, done)
      ensures r == Refuses ==> order[done] in refused && !Taken(before, order, delta, done)
      ensures Moving(before, origin, order, delta, refused, done, AfterMoves(before, origin, order, delta, done),
                     commits, gasTotal)
    {
      gasTotal := 0;
      done := 0;
      while done < |order|
        invariant done <= |order|
        invariant Moving(before, origin, order, delta, refused, done, rows, commits, gasTotal)
      {
        NextMove(before, origin, order, delta, refused, done, rows, commits, gasTotal);
        var fee;
        fee, r := ReplaceAndCommit(order[done], delta, order[done] in refused);
        if r != Made {
          return;
        }
        gasTotal := gasTotal + fee;
        done := done + 1;
      }
      r := Made;
    }

    /** Lock the sender, cancel the transaction at index origin and move every later one down
        by delta. The order is the result of the query on the queue at the time of the call;
        the library refuses to cancel the given rows. */
    method ShiftNonce(origin: nat, delta: int, order: seq<nat>, refused: set<nat>) returns (r: Result)
      requires UniqueTxs(rows) && commits == []
      requires origin < |rows| ==> IsQueryResult(rows, rows[origin].tx.sender, rows[origin].tx.nonce + delta, order)
      modifies this
      ensures r == NotLocal <==> origin >= |old(rows)|
      ensures r == OriginRefused <==> origin < |old(rows)| && origin in refused
      ensures r == NotLocal ==> locks == old(locks)
      ensures r != NotLocal ==> locks == WithBothLocks(old(locks), chain, old(rows)[origin].tx.sender)
      ensures r == NotLocal || r == OriginRefused ==> rows == old(rows) && commits == []
      ensures r != NotLocal ==> Movable(old(rows), order, delta)
      ensures r != NotLocal ==>
                (r.Shifted? <==>
                   origin !in refused && forall j :: 0 <= j < |order| ==> !Blocked(old(rows), order, delta, refused, j))
      ensures r.Shifted? ==>
                && rows == Committed(old(rows), origin, order, delta, |order|)
                && commits == CommitsOf(old(rows), origin, order, delta, |order|)
                && r.gasTotal == GasTotal(old(rows), order, delta, |order|)
      ensures r.Shifted? && delta == 1 ==> MovesTheHole(old(rows), origin, order, commits, rows)
      ensures r.Collided? || r.Refused? ==>
                && r.at < |order|
                && (forall j :: 0 <= j < r.at ==> !Blocked(old(rows), order, delta, refused, j))
                && (r.Collided? <==> Taken(old(rows), order, delta, r.at))
                && (r.Refused? ==> order[r.at] in refused)
                && rows == Committed(old(rows), origin, order, delta, r.at)
                && commits == CommitsOf(old(rows), origin, order, delta, r.at)
    {
      if origin >= |rows| {
        return NotLocal;
      }
      var key := Locks.Key(chain, rows[origin].tx.sender);
      locks := Locks.Set(locks, key, Locks.QUEUE);
      locks := Locks.Set(locks, key, Locks.SEND);
      if origin in refused {
        return OriginRefused;
      }
      r := CancelAndMove(origin, delta, order, refused);
    }

    // Cancel, move, and end the session.
    method CancelAndMove(origin: nat, delta: int, order: seq<nat>, refused: set<nat>) returns (r: Result)
      requires origin < |rows| && UniqueTxs(rows) && commits == [] && Movable(rows, order, delta)
      modifies this`rows, this`commits
      ensures r.Shifted? || r.Collided? || r.Refused?
      ensures r.Shifted? <==> forall j :: 0 <= j < |order| ==> !Blocked(old(rows), order, delta, refused, j)
      ensures r.Shifted? ==>
                && rows == Committed(old(rows), origin, order, delta, |order|)
                && commits == CommitsOf(old(rows), origin, order, delta, |order|)
                && r.gasTotal == GasTotal(old(rows), order, delta, |order|)
      ensures r.Shifted? && delta == 1 ==> MovesTheHole(old(rows), origin, order, commits, rows)
      ensures r.Collided? || r.Refused? ==>
                && r.at < |order|
                && (forall j :: 0 <= j < r.at ==> !Blocked(old(rows), order, delta, refused, j))
                && (r.Collided? <==> Taken(old(rows), order, delta, r.at))
                && (r.Refused? ==> order[r.at] in refused)
                && rows == Committed(old(rows), origin, order, delta, r.at)
                && commits == CommitsOf(old(rows), origin, order, delta, r.at)
    {
      var before := rows;
      rows := rows[origin := Cancelled(rows[origin])];
      var done, gasTotal, outcome := MoveAll(before, origin, order, delta, refused);
      // the session ends, completed or failed: what it has not committed is gone
      rows := if commits == [] then before else commits[|commits| - 1];
      match outcome {
        case Made =>
          r := Shifted(gasTotal);
          if delta == 1 {
            CompletedShiftMovesTheHole(before, origin, order);
          }
        case Collides => r := Collided(done);
        case Refuses => r := Refused(done);
      }
    }
  }

  /** The j-th replacement collides exactly if the queue has the transaction that differs from
      the original in nothing but a nonce lower by delta and a price higher by one. */
  lemma CollidesExactly(rows: seq<Row>, order: seq<nat>, delta: int, j: nat)
    requires Movable(rows, order, delta) && j < |order|
    ensures var t := rows[order[j]].tx;
            var copy := Tx(t.sender, t.nonce - delta, t.gasPrice + 1, t.gas, t.recipient, t.value, t.data);
            Taken(rows, order, delta, j) <==> exists i :: 0 <= i < |rows| && rows[i].tx == copy
  {
  }

  /** The gas budget is the sum of the raised price times the gas of every transaction moved. */
  lemma GasTotalAddsUp(rows: seq<Row>, order: seq<nat>, delta: int, k: nat)
    requires Movable(rows, order, delta) && k < |order|
    ensures GasTotal(rows, order, delta, 0) == 0
    ensures GasTotal(rows, order, delta, k + 1) ==
            GasTotal(rows, order, delta, k) + (rows[order[k]].tx.gasPrice + 1) * rows[order[k]].tx.gas
  {
  }

  // ----- what the queue looks like after k replacements -----

  lemma {:induction false} OldRowAfterMoves(rows: seq<Row>, origin: nat, order: seq<nat>, delta: int, k: nat, i: nat)
    requires origin < |rows| && Movable(rows, order, delta) && k <= |order| && i < |rows|
    ensures AfterMoves(rows, origin, order, delta, k)[i] ==
            if i == origin || i in order[..k] then Cancelled(rows[i]) else rows[i]
  {
    if k == 0 {
    } else {
      OldRowAfterMoves(rows, origin, order, delta, k - 1, i);
      assert order[..k] == order[..k - 1] + [order[k - 1]];
    }
  }

  lemma RowAfterAllMoves(rows: seq<Row>, origin: nat, order: seq<nat>, delta: int, i: nat)
    requires origin < |rows| && Movable(rows, order, delta) && i < |rows|
    ensures AfterMoves(rows, origin, order, delta, |order|)[i] ==
            if i == origin || i in order then Cancelled(rows[i]) else rows[i]
  {
    OldRowAfterMoves(rows, origin, order, delta, |order|, i);
    assert order[..|order|] == order;
  }

  lemma {:induction false} CopyAfterMoves(rows: seq<Row>, origin: nat, order: seq<nat>, delta: int, k: nat, j: nat)
    requires origin < |rows| && Movable(rows, order, delta) && j < k <= |order|
    ensures AfterMoves(rows, origin, order, delta, k)[|rows| + j] ==
            Row(Moved(rows[order[j]].tx, delta), PENDING, rows[order[j]].cache)
  {
    if j == k - 1 {
    } else {
      CopyAfterMoves(rows, origin, order, delta, k - 1, j);
    }
  }

  /** The cancelled transaction and the first k of the order are dead; the k copies follow,
      in order, with the original's cache row; nothing else has changed. */
  lemma MovesDoneSoFar(rows: seq<Row>, origin: nat, order: seq<nat>, delta: int, k: nat)
    requires origin < |rows| && Movable(rows, order, delta) && k <= |order|
    ensures var now := AfterMoves(rows, origin, order, delta, k);
            && (forall i :: 0 <= i < |rows| ==>
                  now[i] == if i == origin || i in order[..k] then Cancelled(rows[i]) else rows[i])
            && (forall j :: 0 <= j < k ==>
                  now[|rows| + j] == Row(Moved(rows[order[j]].tx, delta), PENDING, rows[order[j]].cache))
  {
    forall i | 0 <= i < |rows|
      ensures AfterMoves(rows, origin, order, delta, k)[i] ==
              if i == origin || i in order[..k] then Cancelled(rows[i]) else rows[i]
    {
      OldRowAfterMoves(rows, origin, order, delta, k, i);
    }
    forall j | 0 <= j < k
      ensures AfterMoves(rows, origin, order, delta, k)[|rows| + j] ==
              Row(Moved(rows[order[j]].tx, delta), PENDING, rows[order[j]].cache)
    {
      CopyAfterMoves(rows, origin, order, delta, k, j);
    }
  }

  /** What is committed, field by field: each copy has the sender, gas, recipient, value and data
      of the row it came from, a nonce exactly delta lower, a price exactly one higher, no status
      bit, and the same cache row; each original, and the transaction to cancel, is dead and
      otherwise as it was; and every other row is as it was. */
  lemma CommittedFieldByField(rows: seq<Row>, origin: nat, order: seq<nat>, delta: int, k: nat)
    requires origin < |rows| && Movable(rows, order, delta) && 0 < k <= |order|
    ensures var now := Committed(rows, origin, order, delta, k);
            && |now| == |rows| + k
            && (forall j :: 0 <= j < k ==>
                  var t := rows[order[j]].tx;
                  now[|rows| + j] ==
                  Row(Tx(t.sender, t.nonce - delta, t.gasPrice + 1, t.gas, t.recipient, t.value, t.data),
                      {}, rows[order[j]].cache))
            && (forall i :: 0 <= i < |rows| ==>
                  && now[i].tx == rows[i].tx && now[i].cache == rows[i].cache
                  && now[i].status == rows[i].status +
                     if i == origin || i in order[..k] then {FINAL, OBSOLETE, MANUAL} else {})
  {
    MovesDoneSoFar(rows, origin, order, delta, k);
  }

  lemma SameMoveSameTx(t: Tx, u: Tx, delta: int)
    requires t.nonce >= delta && u.nonce >= delta && Moved(t, delta) == Moved(u, delta)
    ensures t == u
  {
    assert Moved(t, delta).nonce + delta == t.nonce && Moved(t, delta).gasPrice - 1 == t.gasPrice;
  }

  // Copies never collide with each other, only with what was in the queue from the start.
  lemma CopiesOnlyMeetOldRows(rows: seq<Row>, origin: nat, order: seq<nat>, delta: int, k: nat)
    requires origin < |rows| && UniqueTxs(rows) && Movable(rows, order, delta) && k < |order|
    ensures HasTx(AfterMoves(rows, origin, order, delta, k), Moved(rows[order[k]].tx, delta))
            <==> Taken(rows, order, delta, k)
  {
    var now := AfterMoves(rows, origin, order, delta, k);
    var tx := Moved(rows[order[k]].tx, delta);
    MovesDoneSoFar(rows, origin, order, delta, k);
    if i :| 0 <= i < |now| && now[i].tx == tx {
      if i >= |rows| {
        var j := i - |rows|;
        assert now[|rows| + j].tx == Moved(rows[order[j]].tx, delta);
        SameMoveSameTx(rows[order[j]].tx, rows[order[k]].tx, delta);
      } else {
        assert rows[i].tx == tx;
      }
    }
    if i :| 0 <= i < |rows| && rows[i].tx == tx {
      assert now[i].tx == tx;
    }
  }

  /** The queue never holds a transaction twice: a shift adds none that is there already. */
  lemma {:induction false} ShiftKeepsUnique(rows: seq<Row>, origin: nat, order: seq<nat>, delta: int, k: nat)
    requires origin < |rows| && UniqueTxs(rows) && Movable(rows, order, delta) && k <= |order|
    requires forall j :: 0 <= j < k ==> !Taken(rows, order, delta, j)
    ensures UniqueTxs(AfterMoves(rows, origin, order, delta, k))
  {
    if k == 0 {
    } else {
      var before, now := AfterMoves(rows, origin, order, delta, k - 1), AfterMoves(rows, origin, order, delta, k);
      ShiftKeepsUnique(rows, origin, order, delta, k - 1);
      CopiesOnlyMeetOldRows(rows, origin, order, delta, k - 1);
      assert forall i :: 0 <= i < |before| ==> now[i].tx == before[i].tx;
    }
  }

  // The next replacement meets its copy if that was there from the start; if it is not blocked,
  // the shift is one step on.
  lemma NextMove(before: seq<Row>, origin: nat, order: seq<nat>, delta: int, refused: set<nat>, k: nat,
                 rows: seq<Row>, commits: seq<seq<Row>>, gasTotal: nat)
    requires origin < |before| && UniqueTxs(before) && Movable(before, order, delta) && k < |order|
    requires Moving(before, origin, order, delta, refused, k, rows, commits, gasTotal)
    ensures order[k] < |rows| && rows[order[k]].tx.nonce >= delta
    ensures var copy := Moved(rows[order[k]].tx, delta);
            var next := Replaced(rows, order[k], rows[order[k]], delta);
            && (HasTx(rows, copy) <==> Taken(before, order, delta, k))
            && (!HasTx(rows, copy) && order[k] !in refused ==>
                  Moving(before, origin, order, delta, refused, k + 1, next, commits + [next],
                         gasTotal + copy.gasPrice * copy.gas))
  {
    CopiesOnlyMeetOldRows(before, origin, order, delta, k);
    OldRowAfterMoves(before, origin, order, delta, k, order[k]);
  }

  // ----- one hole that moves up -----

  // The live nonces of the sender are the range from a up to b, one transaction each,
  // except that nothing is live at the hole.
  ghost predicate OneHole(rows: seq<Row>, sender: Address, a: nat, b: nat, hole: nat) {
    forall m: int :: if a <= m < b && m != hole then OneLive(rows, sender, m) else NoneLive(rows, sender, m)
  }

  // A sender whose live nonces are the range from a up to b, one transaction each, with no
  // dead transaction from the given nonce on.
  ghost predicate Consecutive(rows: seq<Row>, sender: Address, a: nat, b: int, from: int) {
    && (forall m: int :: if a <= m < b then OneLive(rows, sender, m) else NoneLive(rows, sender, m))
    && (forall i: nat :: Selected(rows, i, sender, from) ==> Live(rows[i].status))
  }

  // In that case the k-th row of the query result has the k-th nonce after the cancelled one.
  lemma {:induction false} OrderIsConsecutive(rows: seq<Row>, sender: Address, a: nat, b: nat, n: nat,
                                              order: seq<nat>, k: nat)
    requires Consecutive(rows, sender, a, b, n + 1) && a <= n < b
    requires IsQueryResult(rows, sender, n + 1, order) && k <= |order|
    ensures k < b - n
    ensures forall j :: 0 <= j < k ==> rows[order[j]].tx.nonce == n + 1 + j
  {
    if k == 0 {
    } else {
      OrderIsConsecutive(rows, sender, a, b, n, order, k - 1);
      var j := k - 1;
      var m := rows[order[j]].tx.nonce;
      assert Selected(rows, order[j], sender, n + 1) && LiveAt(rows, order[j], sender, m);
      assert if a <= m < b then OneLive(rows, sender, m) else NoneLive(rows, sender, m);
      assert !NoneLive(rows, sender, m);
      if j > 0 {
        var l := j - 1;
        assert rows[order[l]].tx.nonce == n + k - 1 && rows[order[l]].tx.nonce <= m;
        assert Selected(rows, order[l], sender, n + 1) && LiveAt(rows, order[l], sender, n + k - 1);
        assert m != n + k - 1;
      }
      assert n + k <= m;
      assert OneLive(rows, sender, n + k);
      var i :| LiveAt(rows, i, sender, n + k);
      assert Selected(rows, i, sender, n + 1);
      var p :| 0 <= p < |order| && order[p] == i;
      assert p >= j;
    }
  }

  lemma OrderIsComplete(rows: seq<Row>, sender: Address, a: nat, b: nat, n: nat, order: seq<nat>)
    requires Consecutive(rows, sender, a, b, n + 1) && a <= n < b
    requires IsQueryResult(rows, sender, n + 1, order)
    ensures |order| == b - 1 - n
  {
    OrderIsConsecutive(rows, sender, a, b, n, order, |order|);
    if n + 1 < b {
      assert OneLive(rows, sender, b - 1);
      var i :| LiveAt(rows, i, sender, b - 1);
      assert Selected(rows, i, sender, n + 1);
      var p :| 0 <= p < |order| && order[p] == i;
      assert p == b - 2 - n;
    }
  }

  // The call under study: the cancelled transaction is live and cached, and the sender's
  // transactions from there on are live and consecutive.
  ghost predicate CleanShift(rows: seq<Row>, a: nat, b: nat, origin: nat, order: seq<nat>) {
    && origin < |rows|
    && LiveFor(rows[origin], rows[origin].tx.sender)
    && Consecutive(rows, rows[origin].tx.sender, a, b, rows[origin].tx.nonce + 1)
    && IsQueryResult(rows, rows[origin].tx.sender, rows[origin].tx.nonce + 1, order)
  }

  lemma CleanOrder(rows: seq<Row>, a: nat, b: nat, origin: nat, order: seq<nat>)
    requires CleanShift(rows, a, b, origin, order)
    ensures Movable(rows, order, 1)
    ensures a <= rows[origin].tx.nonce < b && |order| == b - 1 - rows[origin].tx.nonce
    ensures forall j :: 0 <= j < |order| ==> rows[order[j]].tx.nonce == rows[origin].tx.nonce + 1 + j
  {
    var sender, n := rows[origin].tx.sender, rows[origin].tx.nonce;
    assert LiveAt(rows, origin, sender, n);
    assert if a <= n < b then OneLive(rows, sender, n) else NoneLive(rows, sender, n);
    OrderIsConsecutive(rows, sender, a, b, n, order, |order|);
    OrderIsComplete(rows, sender, a, b, n, order);
  }

  // A row of the sender that was live stays live unless its nonce has been dealt with.
  lemma OldLiveAfterMoves(rows: seq<Row>, a: nat, b: nat, origin: nat, order: seq<nat>, k: nat, i: nat, m: int)
    requires CleanShift(rows, a, b, origin, order) && k <= |order| && i < |rows|
    ensures Movable(rows, order, 1)
    ensures var sender, n := rows[origin].tx.sender, rows[origin].tx.nonce;
            LiveAt(AfterMoves(rows, origin, order, 1, k), i, sender, m)
            <==> LiveAt(rows, i, sender, m) && !(n <= m <= n + k)
  {
    var sender, n := rows[origin].tx.sender, rows[origin].tx.nonce;
    CleanOrder(rows, a, b, origin, order);
    OldRowAfterMoves(rows, origin, order, 1, k, i);
    if LiveAt(rows, i, sender, m) {
      if m == n {
        assert LiveAt(rows, origin, sender, n) && OneLive(rows, sender, n);
      } else if m > n {
        assert Selected(rows, i, sender, n + 1);
        var p :| 0 <= p < |order| && order[p] == i;
        assert m == n + 1 + p;
        assert p < k ==> order[..k][p] == i;
      }
      if i in order[..k] {
        var q :| 0 <= q < k && order[..k][q] == i;
        assert order[q] == i;
      }
    }
  }

  // The j-th copy is the live transaction of the j-th nonce from the cancelled one on.
  lemma CopyLiveAfterMoves(rows: seq<Row>, a: nat, b: nat, origin: nat, order: seq<nat>, k: nat, j: nat, m: int)
    requires CleanShift(rows, a, b, origin, order) && j < k <= |order|
    ensures Movable(rows, order, 1)
    ensures LiveAt(AfterMoves(rows, origin, order, 1, k), |rows| + j, rows[origin].tx.sender, m)
            <==> m == rows[origin].tx.nonce + j
  {
    CleanOrder(rows, a, b, origin, order);
    CopyAfterMoves(rows, origin, order, 1, k, j);
    assert Selected(rows, order[j], rows[origin].tx.sender, rows[origin].tx.nonce + 1);
  }

  lemma NonceAfterMoves(rows: seq<Row>, a: nat, b: nat, origin: nat, order: seq<nat>, k: nat, m: int)
    requires CleanShift(rows, a, b, origin, order) && k <= |order|
    ensures Movable(rows, order, 1)
    ensures var sender, n := rows[origin].tx.sender, rows[origin].tx.nonce;
            var now := AfterMoves(rows, origin, order, 1, k);
            if a <= m < b && m != n + k then OneLive(now, sender, m) else NoneLive(now, sender, m)
  {
    CleanOrder(rows, a, b, origin, order);
    var sender, n := rows[origin].tx.sender, rows[origin].tx.nonce;
    var now := AfterMoves(rows, origin, order, 1, k);
    forall i | 0 <= i < |now|
      ensures LiveAt(now, i, sender, m) <==>
              if n <= m < n + k then i == |rows| + m - n else m != n + k && LiveAt(rows, i, sender, m)
    {
      if i < |rows| {
        OldLiveAfterMoves(rows, a, b, origin, order, k, i, m);
      } else {
        CopyLiveAfterMoves(rows, a, b, origin, order, k, i - |rows|, m);
      }
    }
    assert if a <= m < b then OneLive(rows, sender, m) else NoneLive(rows, sender, m);
    if n <= m < n + k {
      assert LiveAt(now, |rows| + m - n, sender, m);
    } else if m == n + k {
      assert NoneLive(now, sender, m);
    } else if a <= m < b {
      var i :| LiveAt(rows, i, sender, m);
      assert LiveAt(now, i, sender, m);
    }
  }

  /** At every commit of a clean shift by one there is exactly one hole in the sender's live
      nonces and never two live transactions of one nonce; the hole moves up by one with every
      commit, from right after the cancelled nonce, and is gone past the end after the last. */
  lemma HoleMovesUp(rows: seq<Row>, a: nat, b: nat, origin: nat, order: seq<nat>, k: nat)
    requires CleanShift(rows, a, b, origin, order) && 1 <= k <= |order|
    ensures Movable(rows, order, 1)
    ensures OneHole(Committed(rows, origin, order, 1, k), rows[origin].tx.sender, a, b, rows[origin].tx.nonce + k)
    ensures k == |order| ==>
              Consecutive(Committed(rows, origin, order, 1, k), rows[origin].tx.sender, a, b - 1, b)
  {
    CleanOrder(rows, a, b, origin, order);
    forall m: int
      ensures var sender, n := rows[origin].tx.sender, rows[origin].tx.nonce;
              var now := AfterMoves(rows, origin, order, 1, k);
              if a <= m < b && m != n + k then OneLive(now, sender, m) else NoneLive(now, sender, m)
    {
      NonceAfterMoves(rows, a, b, origin, order, k, m);
    }
    assert Committed(rows, origin, order, 1, k) == AfterMoves(rows, origin, order, 1, k);
    if k == |order| {
      forall i: nat ensures !Selected(AfterMoves(rows, origin, order, 1, k), i, rows[origin].tx.sender, b) {
        NothingPastTheEnd(rows, a, b, origin, order, i);
      }
    }
  }

  lemma NothingStartsPastTheEnd(rows: seq<Row>, a: nat, b: nat, origin: nat, order: seq<nat>, i: nat)
    requires CleanShift(rows, a, b, origin, order)
    ensures !Selected(rows, i, rows[origin].tx.sender, b)
  {
    var sender := rows[origin].tx.sender;
    CleanOrder(rows, a, b, origin, order);
    if Selected(rows, i, sender, rows[origin].tx.nonce + 1) {
      var m := rows[i].tx.nonce;
      assert LiveAt(rows, i, sender, m);
      assert m >= b ==> NoneLive(rows, sender, m);
    }
  }

  // Nothing of a clean shift, dead or alive, has a nonce past the end.
  lemma {:induction false} NothingPastTheEnd(rows: seq<Row>, a: nat, b: nat, origin: nat, order: seq<nat>, i: nat)
    requires CleanShift(rows, a, b, origin, order) && Movable(rows, order, 1)
    ensures !Selected(AfterMoves(rows, origin, order, 1, |order|), i, rows[origin].tx.sender, b)
  {
    CleanOrder(rows, a, b, origin, order);
    if i < |rows| {
      RowAfterAllMoves(rows, origin, order, 1, i);
      NothingStartsPastTheEnd(rows, a, b, origin, order, i);
    } else if i < |rows| + |order| {
      CopyAfterMoves(rows, origin, order, 1, |order|, i - |rows|);
    }
  }

  /** The shift closes the cancelled nonce, and the live nonces become the range without its
      last one, exactly if there was a later transaction: without a replacement nothing is
      committed, and the cancellation is lost. */
  lemma ShiftTakesEffectExactly(rows: seq<Row>, a: nat, b: nat, origin: nat, order: seq<nat>)
    requires CleanShift(rows, a, b, origin, order)
    ensures Movable(rows, order, 1)
    ensures Consecutive(Committed(rows, origin, order, 1, |order|), rows[origin].tx.sender, a, b - 1, b)
            <==> rows[origin].tx.nonce < b - 1
  {
    CleanOrder(rows, a, b, origin, order);
    if rows[origin].tx.nonce < b - 1 {
      HoleMovesUp(rows, a, b, origin, order, |order|);
    } else {
      assert LiveAt(rows, origin, rows[origin].tx.sender, b - 1);
      assert !NoneLive(rows, rows[origin].tx.sender, b - 1);
    }
  }

  /** On any queue, the transaction to cancel ends dead exactly if some row was moved. */
  lemma CancelledExactlyWhenMoved(rows: seq<Row>, origin: nat, order: seq<nat>, delta: int)
    requires origin < |rows| && Movable(rows, order, delta) && Live(rows[origin].status)
    ensures !Live(Committed(rows, origin, order, delta, |order|)[origin].status) <==> order != []
  {
    if order != [] {
      OldRowAfterMoves(rows, origin, order, delta, |order|, origin);
    }
  }

  /** A sender's only transaction stays live: the shift of it completes and changes nothing. */
  lemma OnlyTransactionStaysLive(row: Row)
    requires LiveFor(row, row.tx.sender)
    ensures CleanShift([row], row.tx.nonce, row.tx.nonce + 1, 0, []) && Movable([row], [], 1)
    ensures Committed([row], 0, [], 1, 0) == [row]
  {
    var sender, n := row.tx.sender, row.tx.nonce;
    var rows := [row];
    assert LiveAt(rows, 0, sender, n);
    assert OneLive(rows, sender, n);
    assert forall m: int :: m != n ==> NoneLive(rows, sender, m);
    var from := n + 1;
    assert forall i: nat :: !Selected(rows, i, sender, from);
  }

  // The copies are what a clean shift leaves live from the cancelled nonce on.
  lemma LiveIsCopy(rows: seq<Row>, a: nat, b: nat, origin: nat, order: seq<nat>, i: nat, m: int)
    requires CleanShift(rows, a, b, origin, order) && Movable(rows, order, 1)
    requires LiveAt(AfterMoves(rows, origin, order, 1, |order|), i, rows[origin].tx.sender, m)
    requires m >= rows[origin].tx.nonce
    ensures |rows| <= i < |rows| + |order|
  {
    if i < |rows| {
      CleanOrder(rows, a, b, origin, order);
      assert m >= b ==> NoneLive(rows, rows[origin].tx.sender, m);
      OldLiveAfterMoves(rows, a, b, origin, order, |order|, i, m);
    }
  }

  lemma CopyOfNext(rows: seq<Row>, a: nat, b: nat, origin: nat, order: seq<nat>, j: nat, m: int)
    requires CleanShift(rows, a, b, origin, order) && Movable(rows, order, 1) && j < |order|
    requires LiveAt(AfterMoves(rows, origin, order, 1, |order|), |rows| + j, rows[origin].tx.sender, m)
    ensures LiveAt(rows, order[j], rows[origin].tx.sender, m + 1)
    ensures AfterMoves(rows, origin, order, 1, |order|)[|rows| + j] ==
            Row(Moved(rows[order[j]].tx, 1), PENDING, rows[order[j]].cache)
  {
    CopyAfterMoves(rows, origin, order, 1, |order|, j);
    assert Selected(rows, order[j], rows[origin].tx.sender, rows[origin].tx.nonce + 1);
  }

  /** Each shifted transaction keeps its payload: once a shift has moved anything, the live
      transaction of a nonce from the cancelled one on has the gas, recipient, value, data and
      cache row of the live one that had the next nonce, and a price one higher. */
  lemma ShiftKeepsPayload(rows: seq<Row>, a: nat, b: nat, origin: nat, order: seq<nat>, i: nat, m: int)
    requires CleanShift(rows, a, b, origin, order) && Movable(rows, order, 1) && order != []
    requires LiveAt(Committed(rows, origin, order, 1, |order|), i, rows[origin].tx.sender, m)
    requires m >= rows[origin].tx.nonce
    ensures var now := Committed(rows, origin, order, 1, |order|)[i];
            exists j :: LiveAt(rows, j, rows[origin].tx.sender, m + 1) &&
                        var t := rows[j].tx;
                        && now.tx.nonce == t.nonce - 1 && now.tx.gasPrice == t.gasPrice + 1
                        && now.tx.sender == t.sender && now.tx.gas == t.gas && now.tx.recipient == t.recipient
                        && now.tx.value == t.value && now.tx.data == t.data
                        && now.cache == rows[j].cache && now.status == {}
  {
    LiveIsCopy(rows, a, b, origin, order, i, m);
    CopyOfNext(rows, a, b, origin, order, i - |rows|, m);
  }

  lemma {:induction false} CommitIsCommitted(rows: seq<Row>, origin: nat, order: seq<nat>, delta: int, k: nat, i: nat)
    requires origin < |rows| && Movable(rows, order, delta) && i < k <= |order|
    ensures CommitsOf(rows, origin, order, delta, k)[i] == Committed(rows, origin, order, delta, i + 1)
  {
    if i == k - 1 {
    } else {
      CommitIsCommitted(rows, origin, order, delta, k - 1, i);
    }
  }

  // If the shift is a clean one, every commit has one hole, one further up than the commit
  // before, and a shift that moves anything ends without one.
  ghost predicate MovesTheHole(before: seq<Row>, origin: nat, order: seq<nat>, commits: seq<seq<Row>>, end: seq<Row>) {
    forall a: nat, b: nat | CleanShift(before, a, b, origin, order) ::
      var sender, n := before[origin].tx.sender, before[origin].tx.nonce;
      && (forall i: nat | i < |commits| :: OneHole(commits[i], sender, a, b, n + 1 + i))
      && (order != [] ==> Consecutive(end, sender, a, b - 1, b))
  }

  lemma CompletedShiftMovesTheHole(rows: seq<Row>, origin: nat, order: seq<nat>)
    requires origin < |rows| && Movable(rows, order, 1)
    ensures MovesTheHole(rows, origin, order, CommitsOf(rows, origin, order, 1, |order|),
                         Committed(rows, origin, order, 1, |order|))
  {
    var sender, n := rows[origin].tx.sender, rows[origin].tx.nonce;
    forall a: nat, b: nat | CleanShift(rows, a, b, origin, order)
      ensures forall i: nat | i < |order| ::
              OneHole(CommitsOf(rows, origin, order, 1, |order|)[i], sender, a, b, n + 1 + i)
      ensures order != [] ==> Consecutive(Committed(rows, origin, order, 1, |order|), sender, a, b - 1, b)
    {
      forall i: nat | i < |order|
        ensures OneHole(CommitsOf(rows, origin, order, 1, |order|)[i], sender, a, b, n + 1 + i)
      {
        CommitIsCommitted(rows, origin, order, 1, |order|, i);
        HoleMovesUp(rows, a, b, origin, order, i + 1);
      }
      if order != [] {
        HoleMovesUp(rows, a, b, origin, order, |order|);
      }
    }
  }

  /** Value stays conserved through a shift: every queue it commits is one of transfers. */
  lemma {:induction false} ShiftKeepsTransfers(rows: seq<Row>, origin: nat, order: seq<nat>, delta: int, k: nat)
    requires origin < |rows| && Movable(rows, order, delta) && k <= |order|
    requires forall row | row in rows :: Balances.TransferShaped(row)
    ensures forall row | row in AfterMoves(rows, origin, order, delta, k) :: Balances.TransferShaped(row)
  {
    if k == 0 {
      assert Balances.TransferShaped(rows[origin]);
    } else {
      var before := AfterMoves(rows, origin, order, delta, k - 1);
      ShiftKeepsTransfers(rows, origin, order, delta, k - 1);
      assert before[order[k - 1]] in before && rows[order[k - 1]] in rows;
      assert Balances.TransferShaped(before[order[k - 1]]) && Balances.TransferShaped(rows[order[k - 1]]);
    }
  }

  // What a row that is moved comes to carry, if it was dead.
  function RevivedOutgoingOf(row: Row, token: Address, holder: Address): nat {
    if Live(row.status) then 0 else Balances.OutgoingOf(row.(status := PENDING), token, holder)
  }

  function RevivedIncomingOf(row: Row, token: Address, holder: Address): nat {
    if Live(row.status) then 0 else Balances.IncomingOf(row.(status := PENDING), token, holder)
  }

  // What the dead ones among the first k rows of the order carry.
  ghost function RevivedOutgoing(rows: seq<Row>, order: seq<nat>, k: nat, token: Address, holder: Address): nat
    requires (forall j :: 0 <= j < |order| ==> order[j] < |rows|) && k <= |order|
  {
    if k == 0 then 0
    else RevivedOutgoing(rows, order, k - 1, token, holder) + RevivedOutgoingOf(rows[order[k - 1]], token, holder)
  }

  ghost function RevivedIncoming(rows: seq<Row>, order: seq<nat>, k: nat, token: Address, holder: Address): nat
    requires (forall j :: 0 <= j < |order| ==> order[j] < |rows|) && k <= |order|
  {
    if k == 0 then 0
    else RevivedIncoming(rows, order, k - 1, token, holder) + RevivedIncomingOf(rows[order[k - 1]], token, holder)
  }

  lemma BalancesOfReplacement(rows: seq<Row>, i: nat, row: Row, delta: int, token: Address, holder: Address)
    requires i < |rows| && rows[i] == row && row.tx.nonce >= delta
    ensures Balances.Outgoing(Replaced(rows, i, row, delta), token, holder)
            == Balances.Outgoing(rows, token, holder) + RevivedOutgoingOf(row, token, holder)
    ensures Balances.Incoming(Replaced(rows, i, row, delta), token, holder)
            == Balances.Incoming(rows, token, holder) + RevivedIncomingOf(row, token, holder)
  {
    var copy := Row(Moved(row.tx, delta), PENDING, row.cache);
    Balances.BalancesOfChangedRow(rows, i, Cancelled(row), token, holder);
    Balances.BalancesOfLastRow(rows[i := Cancelled(row)], copy, token, holder);
  }

  lemma NotYetMoved(rows: seq<Row>, origin: nat, order: seq<nat>, delta: int, k: nat)
    requires origin < |rows| && origin !in order && Movable(rows, order, delta) && k < |order|
    ensures AfterMoves(rows, origin, order, delta, k)[order[k]] == rows[order[k]]
  {
    OldRowAfterMoves(rows, origin, order, delta, k, order[k]);
    assert order[k] in order;
  }

  lemma OutgoingOfNextMove(rows: seq<Row>, origin: nat, order: seq<nat>, delta: int, k: nat,
                          token: Address, holder: Address)
    requires origin < |rows| && origin !in order && Movable(rows, order, delta) && k < |order|
    ensures Balances.Outgoing(AfterMoves(rows, origin, order, delta, k + 1), token, holder)
            == Balances.Outgoing(AfterMoves(rows, origin, order, delta, k), token, holder) +
               RevivedOutgoingOf(rows[order[k]], token, holder)
  {
    NotYetMoved(rows, origin, order, delta, k);
    BalancesOfReplacement(AfterMoves(rows, origin, order, delta, k), order[k], rows[order[k]], delta, token, holder);
  }

  lemma IncomingOfNextMove(rows: seq<Row>, origin: nat, order: seq<nat>, delta: int, k: nat,
                          token: Address, holder: Address)
    requires origin < |rows| && origin !in order && Movable(rows, order, delta) && k < |order|
    ensures Balances.Incoming(AfterMoves(rows, origin, order, delta, k + 1), token, holder)
            == Balances.Incoming(AfterMoves(rows, origin, order, delta, k), token, holder) +
               RevivedIncomingOf(rows[order[k]], token, holder)
  {
    NotYetMoved(rows, origin, order, delta, k);
    BalancesOfReplacement(AfterMoves(rows, origin, order, delta, k), order[k], rows[order[k]], delta, token, holder);
  }

  lemma {:induction false} OutgoingAfterMoves(rows: seq<Row>, origin: nat, order: seq<nat>, delta: int, k: nat,
                                              token: Address, holder: Address)
    requires origin < |rows| && origin !in order && Movable(rows, order, delta) && k <= |order|
    ensures Balances.Outgoing(AfterMoves(rows, origin, order, delta, k), token, holder)
            == Balances.Outgoing(AfterMoves(rows, origin, order, delta, 0), token, holder) +
              RevivedOutgoing(rows, order, k, token, holder)
  {
    if k == 0 {
    } else {
      OutgoingAfterMoves(rows, origin, order, delta, k - 1, token, holder);
      OutgoingOfNextMove(rows, origin, order, delta, k - 1, token, holder);
    }
  }

  lemma {:induction false} IncomingAfterMoves(rows: seq<Row>, origin: nat, order: seq<nat>, delta: int, k: nat,
                                              token: Address, holder: Address)
    requires origin < |rows| && origin !in order && Movable(rows, order, delta) && k <= |order|
    ensures Balances.Incoming(AfterMoves(rows, origin, order, delta, k), token, holder)
            == Balances.Incoming(AfterMoves(rows, origin, order, delta, 0), token, holder) +
              RevivedIncoming(rows, order, k, token, holder)
  {
    if k == 0 {
    } else {
      IncomingAfterMoves(rows, origin, order, delta, k - 1, token, holder);
      IncomingOfNextMove(rows, origin, order, delta, k - 1, token, holder);
    }
  }

  /** At every commit of a shift the pending balances of every holder are those before it, less
      what the cancelled transaction carried, and more by what the dead rows that were moved
      carry; before the first commit they are as they were. */
  lemma ShiftBalances(rows: seq<Row>, origin: nat, order: seq<nat>, delta: int, k: nat, token: Address, holder: Address)
    requires origin < |rows| && origin !in order && Movable(rows, order, delta) && k <= |order|
    ensures var now := Committed(rows, origin, order, delta, k);
            && Balances.Outgoing(now, token, holder) +
               (if k == 0 then 0 else Balances.OutgoingOf(rows[origin], token, holder))
               == Balances.Outgoing(rows, token, holder) + RevivedOutgoing(rows, order, k, token, holder)
            && Balances.Incoming(now, token, holder) +
               (if k == 0 then 0 else Balances.IncomingOf(rows[origin], token, holder))
               == Balances.Incoming(rows, token, holder) + RevivedIncoming(rows, order, k, token, holder)
  {
    if k > 0 {
      Balances.BalancesOfChangedRow(rows, origin, Cancelled(rows[origin]), token, holder);
      OutgoingAfterMoves(rows, origin, order, delta, k, token, holder);
      IncomingAfterMoves(rows, origin, order, delta, k, token, holder);
    }
  }

  predicate CarriesNothing(row: Row) {
    row.cache.Some? ==> row.cache.value.fromValue == 0 && row.cache.value.toValue == 0
  }

  lemma {:induction false} NothingRevived(rows: seq<Row>, order: seq<nat>, k: nat, token: Address, holder: Address)
    requires (forall j :: 0 <= j < |order| ==> order[j] < |rows|) && k <= |order|
    requires forall j :: 0 <= j < k ==> Live(rows[order[j]].status) || CarriesNothing(rows[order[j]])
    ensures RevivedOutgoing(rows, order, k, token, holder) == 0 && RevivedIncoming(rows, order, k, token, holder) == 0
  {
    if k == 0 {
    } else {
      NothingRevived(rows, order, k - 1, token, holder);
      assert Live(rows[order[k - 1]].status) || CarriesNothing(rows[order[k - 1]]);
    }
  }

  lemma {:induction false} RevivedAtLeast(rows: seq<Row>, order: seq<nat>, k: nat, j: nat, token: Address,
                                          holder: Address)
    requires (forall l :: 0 <= l < |order| ==> order[l] < |rows|) && j < k <= |order|
    ensures RevivedOutgoing(rows, order, k, token, holder) >= RevivedOutgoingOf(rows[order[j]], token, holder)
    ensures RevivedIncoming(rows, order, k, token, holder) >= RevivedIncomingOf(rows[order[j]], token, holder)
  {
    if j == k - 1 {
    } else {
      RevivedAtLeast(rows, order, k - 1, j, token, holder);
    }
  }

  // Every pending balance is the one before, less what the cancelled transaction carried.
  ghost predicate OnlyCancelledTakenOut(rows: seq<Row>, origin: nat, now: seq<Row>)
    requires origin < |rows|
  {
    forall token, holder ::
      && Balances.Outgoing(now, token, holder) + Balances.OutgoingOf(rows[origin], token, holder)
         == Balances.Outgoing(rows, token, holder)
      && Balances.Incoming(now, token, holder) + Balances.IncomingOf(rows[origin], token, holder)
         == Balances.Incoming(rows, token, holder)
  }

  // Without a commit the cancelled transaction is not taken out.
  lemma NothingTakenOutExactly(rows: seq<Row>, origin: nat)
    requires origin < |rows|
    ensures OnlyCancelledTakenOut(rows, origin, rows) <==> !Live(rows[origin].status) || CarriesNothing(rows[origin])
  {
    if Live(rows[origin].status) && !CarriesNothing(rows[origin]) {
      var c := rows[origin].cache.value;
      assert Balances.OutgoingOf(rows[origin], c.sourceToken, c.sender) == c.fromValue;
      assert Balances.IncomingOf(rows[origin], c.destinationToken, c.recipient) == c.toValue;
      if c.fromValue > 0 {
        assert Balances.Outgoing(rows, c.sourceToken, c.sender) >= 0;
      } else {
        assert Balances.Incoming(rows, c.destinationToken, c.recipient) >= 0;
      }
    }
  }

  /** What is committed of a shift has lost nothing of the pending balances but the cancelled
      transaction, and gained nothing, exactly if the dead rows that were moved carry nothing;
      or, when no row was moved, if the transaction to cancel was dead or carries nothing. */
  lemma ShiftTakesOutOnlyTheCancelledExactly(rows: seq<Row>, origin: nat, order: seq<nat>, delta: int, k: nat)
    requires origin < |rows| && origin !in order && Movable(rows, order, delta) && k <= |order|
    ensures OnlyCancelledTakenOut(rows, origin, Committed(rows, origin, order, delta, k)) <==>
            if k == 0 then !Live(rows[origin].status) || CarriesNothing(rows[origin])
            else forall j :: 0 <= j < k ==> Live(rows[order[j]].status) || CarriesNothing(rows[order[j]])
  {
    if k == 0 {
      NothingTakenOutExactly(rows, origin);
    } else if j :| 0 <= j < k && !Live(rows[order[j]].status) && !CarriesNothing(rows[order[j]]) {
      RevivedIsPutIn(rows, origin, order, delta, k, j);
    } else {
      var now := Committed(rows, origin, order, delta, k);
      forall token, holder
        ensures Balances.Outgoing(now, token, holder) + Balances.OutgoingOf(rows[origin], token, holder)
                == Balances.Outgoing(rows, token, holder) &&
                Balances.Incoming(now, token, holder) + Balances.IncomingOf(rows[origin], token, holder)
                == Balances.Incoming(rows, token, holder)
      {
        ShiftBalances(rows, origin, order, delta, k, token, holder);
        NothingRevived(rows, order, k, token, holder);
      }
    }
  }

  lemma RevivedIsPutIn(rows: seq<Row>, origin: nat, order: seq<nat>, delta: int, k: nat, j: nat)
    requires origin < |rows| && origin !in order && Movable(rows, order, delta) && j < k <= |order|
    requires !Live(rows[order[j]].status) && !CarriesNothing(rows[order[j]])
    ensures !OnlyCancelledTakenOut(rows, origin, Committed(rows, origin, order, delta, k))
  {
    var c := rows[order[j]].cache.value;
    ShiftBalances(rows, origin, order, delta, k, c.sourceToken, c.sender);
    ShiftBalances(rows, origin, order, delta, k, c.destinationToken, c.recipient);
    RevivedAtLeast(rows, order, k, j, c.sourceToken, c.sender);
    RevivedAtLeast(rows, order, k, j, c.destinationToken, c.recipient);
  }

  // ----- any queue -----

  // The rows picked up all have different nonces.
  ghost predicate NoncesDiffer(rows: seq<Row>, sender: Address, from: int) {
    forall i: nat, j: nat ::
      (Selected(rows, i, sender, from) && Selected(rows, j, sender, from) && rows[i].tx.nonce == rows[j].tx.nonce) ==>
        i == j
  }

  // What is still live of the old rows after a whole shift lies below the cancelled nonce.
  lemma OldLiveIsLow(rows: seq<Row>, origin: nat, picked: bool, row: Row, i: nat, m: int)
    requires origin < |rows| && LiveFor(rows[origin], rows[origin].tx.sender) && i < |rows|
    requires Selected(rows, i, rows[origin].tx.sender, rows[origin].tx.nonce + 1) ==> picked
    requires AtMostOneLive(rows, rows[origin].tx.sender, rows[origin].tx.nonce)
    requires row == if i == origin || picked then Cancelled(rows[i]) else rows[i]
    requires LiveFor(row, rows[origin].tx.sender) && row.tx.nonce == m
    ensures LiveAt(rows, i, rows[origin].tx.sender, m) && m < rows[origin].tx.nonce
  {
    assert LiveAt(rows, origin, rows[origin].tx.sender, rows[origin].tx.nonce);
    assert LiveAt(rows, i, rows[origin].tx.sender, m);
  }

  // Where a transaction that is live after a whole shift comes from: an old row below the
  // cancelled nonce, or a picked up row that had the next nonce.
  ghost predicate ComesFrom(rows: seq<Row>, origin: nat, order: seq<nat>, i: nat, m: int)
    requires origin < |rows|
  {
    if i < |rows| then LiveAt(rows, i, rows[origin].tx.sender, m) && m < rows[origin].tx.nonce
    else
      && i - |rows| < |order|
      && Selected(rows, order[i - |rows|], rows[origin].tx.sender, rows[origin].tx.nonce + 1)
      && rows[order[i - |rows|]].tx.nonce == m + 1
  }

  lemma OldLiveComesFrom(rows: seq<Row>, origin: nat, order: seq<nat>, i: nat, m: int)
    requires origin < |rows| && LiveFor(rows[origin], rows[origin].tx.sender) && i < |rows|
    requires IsQueryResult(rows, rows[origin].tx.sender, rows[origin].tx.nonce + 1, order) && Movable(rows, order, 1)
    requires AtMostOneLive(rows, rows[origin].tx.sender, rows[origin].tx.nonce)
    requires LiveAt(AfterMoves(rows, origin, order, 1, |order|), i, rows[origin].tx.sender, m)
    ensures ComesFrom(rows, origin, order, i, m)
  {
    var row := AfterMoves(rows, origin, order, 1, |order|)[i];
    RowAfterAllMoves(rows, origin, order, 1, i);
    OldLiveIsLow(rows, origin, i in order, row, i, m);
  }

  lemma CopyComesFrom(rows: seq<Row>, origin: nat, order: seq<nat>, j: nat, m: int)
    requires origin < |rows| && j < |order| && Movable(rows, order, 1)
    requires Selected(rows, order[j], rows[origin].tx.sender, rows[origin].tx.nonce + 1)
    requires LiveAt(AfterMoves(rows, origin, order, 1, |order|), |rows| + j, rows[origin].tx.sender, m)
    ensures ComesFrom(rows, origin, order, |rows| + j, m)
  {
    CopyAfterMoves(rows, origin, order, 1, |order|, j);
  }

  lemma {:induction false} LiveComesFrom(rows: seq<Row>, origin: nat, order: seq<nat>, i: nat, m: int)
    requires origin < |rows| && LiveFor(rows[origin], rows[origin].tx.sender)
    requires IsQueryResult(rows, rows[origin].tx.sender, rows[origin].tx.nonce + 1, order) && Movable(rows, order, 1)
    requires AtMostOneLive(rows, rows[origin].tx.sender, rows[origin].tx.nonce)
    requires LiveAt(AfterMoves(rows, origin, order, 1, |order|), i, rows[origin].tx.sender, m)
    ensures ComesFrom(rows, origin, order, i, m)
  {
    if i < |rows| {
      OldLiveComesFrom(rows, origin, order, i, m);
    } else {
      CopyComesFrom(rows, origin, order, i - |rows|, m);
    }
  }

  lemma SameOriginSameRow(rows: seq<Row>, origin: nat, order: seq<nat>, i: nat, j: nat, m: int)
    requires origin < |rows|
    requires forall p, q :: 0 <= p < q < |order| ==> order[p] != order[q]
    requires NoncesDiffer(rows, rows[origin].tx.sender, rows[origin].tx.nonce + 1)
    requires AtMostOneLive(rows, rows[origin].tx.sender, m)
    requires ComesFrom(rows, origin, order, i, m) && ComesFrom(rows, origin, order, j, m)
    ensures i == j
  {
  }

  lemma EqualNoncesMeetAgain(rows: seq<Row>, origin: nat, order: seq<nat>, p: nat, q: nat)
    requires origin < |rows| && p != q && p < |order| && q < |order|
    requires Movable(rows, order, 1)
    requires Selected(rows, order[p], rows[origin].tx.sender, rows[origin].tx.nonce + 1)
    requires Selected(rows, order[q], rows[origin].tx.sender, rows[origin].tx.nonce + 1)
    requires rows[order[p]].tx.nonce == rows[order[q]].tx.nonce
    ensures !AtMostOneLive(AfterMoves(rows, origin, order, 1, |order|), rows[origin].tx.sender,
                           rows[order[p]].tx.nonce - 1)
  {
    var now := AfterMoves(rows, origin, order, 1, |order|);
    CopyAfterMoves(rows, origin, order, 1, |order|, p);
    CopyAfterMoves(rows, origin, order, 1, |order|, q);
    assert LiveAt(now, |rows| + p, rows[origin].tx.sender, rows[order[p]].tx.nonce - 1);
    assert LiveAt(now, |rows| + q, rows[origin].tx.sender, rows[order[p]].tx.nonce - 1);
  }

  /** On any queue where the cancelled transaction is live and no nonce has two live ones, a
      completed shift by one leaves no nonce with two live transactions exactly if the rows it
      picked up, dead ones included, all had different nonces: a dead row comes back to life. */
  lemma ShiftKeepsOneLiveExactly(rows: seq<Row>, origin: nat, order: seq<nat>)
    requires origin < |rows| && LiveFor(rows[origin], rows[origin].tx.sender)
    requires IsQueryResult(rows, rows[origin].tx.sender, rows[origin].tx.nonce + 1, order) && Movable(rows, order, 1)
    requires forall m: int :: AtMostOneLive(rows, rows[origin].tx.sender, m)
    ensures (forall m: int :: AtMostOneLive(Committed(rows, origin, order, 1, |order|), rows[origin].tx.sender, m))
            <==> NoncesDiffer(rows, rows[origin].tx.sender, rows[origin].tx.nonce + 1)
  {
    if NoncesDiffer(rows, rows[origin].tx.sender, rows[origin].tx.nonce + 1) {
      if order != [] {
        forall m: int ensures AtMostOneLive(AfterMoves(rows, origin, order, 1, |order|), rows[origin].tx.sender, m) {
          DifferentNoncesStayApart(rows, origin, order, m);
        }
      }
    } else {
      EqualNoncesFound(rows, origin, order);
      assert Committed(rows, origin, order, 1, |order|) == AfterMoves(rows, origin, order, 1, |order|);
    }
  }

  // A live transaction of nonce 0, and a live and a dead one of nonce 1.
  function OneDeadOfTwo(tx: Tx, cache: Cache): seq<Row> {
    [Row(tx.(nonce := 0), PENDING, Some(cache)), Row(tx.(nonce := 1), PENDING, Some(cache)),
     Row(tx.(nonce := 1, gasPrice := tx.gasPrice + 5), {OBSOLETE}, Some(cache))]
  }

  lemma OneDeadOfTwoIsShiftable(tx: Tx, cache: Cache)
    requires cache.sender == tx.sender
    ensures var rows := OneDeadOfTwo(tx, cache);
            && UniqueTxs(rows) && IsQueryResult(rows, tx.sender, 1, [1, 2]) && Movable(rows, [1, 2], 1)
            && forall m: int :: AtMostOneLive(rows, tx.sender, m)
  {
    var rows := OneDeadOfTwo(tx, cache);
    var order: seq<nat> := [1, 2];
    assert order[0] == 1 && order[1] == 2;
  }

  lemma OneDeadOfTwoIsNotBlocked(tx: Tx, cache: Cache, j: nat)
    requires j < 2 && Movable(OneDeadOfTwo(tx, cache), [1, 2], 1)
    ensures !Blocked(OneDeadOfTwo(tx, cache), [1, 2], 1, {}, j)
  {
    var rows := OneDeadOfTwo(tx, cache);
    assert Moved(rows[1].tx, 1).gasPrice == tx.gasPrice + 1 && Moved(rows[2].tx, 1).gasPrice == tx.gasPrice + 6;
  }

  /** An input that breaks it: of two transactions of nonce 1 one is dead. Shifting nonce 0
      completes, and makes both live at nonce 0. */
  lemma DeadRowComesBack(tx: Tx, cache: Cache)
    requires cache.sender == tx.sender
    ensures var rows := OneDeadOfTwo(tx, cache);
            && IsQueryResult(rows, tx.sender, 1, [1, 2]) && Movable(rows, [1, 2], 1)
            && (forall m: int :: AtMostOneLive(rows, tx.sender, m))
            && (forall j :: 0 <= j < 2 ==> !Blocked(rows, [1, 2], 1, {}, j))
            && !AtMostOneLive(Committed(rows, 0, [1, 2], 1, 2), tx.sender, 0)
  {
    var rows := OneDeadOfTwo(tx, cache);
    var order: seq<nat> := [1, 2];
    OneDeadOfTwoIsShiftable(tx, cache);
    forall j | 0 <= j < 2 ensures !Blocked(rows, order, 1, {}, j) {
      OneDeadOfTwoIsNotBlocked(tx, cache, j);
    }
    EqualNoncesMeetAgain(rows, 0, order, 0, 1);
  }

  /** If the library refuses to cancel dead rows, a shift that completes has met none, and so
      never leaves a nonce with two live transactions. */
  lemma RefusingDeadRowsKeepsOneLive(rows: seq<Row>, origin: nat, order: seq<nat>, refused: set<nat>)
    requires origin < |rows| && LiveFor(rows[origin], rows[origin].tx.sender)
    requires IsQueryResult(rows, rows[origin].tx.sender, rows[origin].tx.nonce + 1, order) && Movable(rows, order, 1)
    requires forall m: int :: AtMostOneLive(rows, rows[origin].tx.sender, m)
    requires forall i: nat :: i < |rows| && !Live(rows[i].status) ==> i in refused
    requires forall j :: 0 <= j < |order| ==> !Blocked(rows, order, 1, refused, j)
    ensures forall m: int :: AtMostOneLive(Committed(rows, origin, order, 1, |order|), rows[origin].tx.sender, m)
  {
    var sender, from := rows[origin].tx.sender, rows[origin].tx.nonce + 1;
    forall i: nat, j: nat |
      Selected(rows, i, sender, from) && Selected(rows, j, sender, from) && rows[i].tx.nonce == rows[j].tx.nonce
      ensures i == j
    {
      var p :| 0 <= p < |order| && order[p] == i;
      var q :| 0 <= q < |order| && order[q] == j;
      assert !Blocked(rows, order, 1, refused, p) && !Blocked(rows, order, 1, refused, q);
      assert AtMostOneLive(rows, sender, rows[i].tx.nonce);
      assert LiveAt(rows, i, sender, rows[i].tx.nonce) && LiveAt(rows, j, sender, rows[i].tx.nonce);
    }
    ShiftKeepsOneLiveExactly(rows, origin, order);
  }

  lemma DifferentNoncesStayApart(rows: seq<Row>, origin: nat, order: seq<nat>, m: int)
    requires origin < |rows| && LiveFor(rows[origin], rows[origin].tx.sender)
    requires IsQueryResult(rows, rows[origin].tx.sender, rows[origin].tx.nonce + 1, order) && Movable(rows, order, 1)
    requires forall l: int :: AtMostOneLive(rows, rows[origin].tx.sender, l)
    requires NoncesDiffer(rows, rows[origin].tx.sender, rows[origin].tx.nonce + 1)
    ensures AtMostOneLive(AfterMoves(rows, origin, order, 1, |order|), rows[origin].tx.sender, m)
  {
    var sender := rows[origin].tx.sender;
    var now := AfterMoves(rows, origin, order, 1, |order|);
    assert AtMostOneLive(rows, sender, rows[origin].tx.nonce) && AtMostOneLive(rows, sender, m);
    forall i, j | LiveAt(now, i, sender, m) && LiveAt(now, j, sender, m) ensures i == j {
      LiveComesFrom(rows, origin, order, i, m);
      LiveComesFrom(rows, origin, order, j, m);
      SameOriginSameRow(rows, origin, order, i, j, m);
    }
  }

  lemma EqualNoncesFound(rows: seq<Row>, origin: nat, order: seq<nat>)
    requires origin < |rows|
    requires IsQueryResult(rows, rows[origin].tx.sender, rows[origin].tx.nonce + 1, order) && Movable(rows, order, 1)
    requires !NoncesDiffer(rows, rows[origin].tx.sender, rows[origin].tx.nonce + 1)
    ensures order != []
    ensures exists m: int :: !AtMostOneLive(AfterMoves(rows, origin, order, 1, |order|), rows[origin].tx.sender, m)
  {
    var sender, from := rows[origin].tx.sender, rows[origin].tx.nonce + 1;
    var i: nat, j: nat :| Selected(rows, i, sender, from) && Selected(rows, j, sender, from) &&
                          rows[i].tx.nonce == rows[j].tx.nonce && i != j;
    var p :| 0 <= p < |order| && order[p] == i;
    var q :| 0 <= q < |order| && order[q] == j;
    EqualNoncesMeetAgain(rows, origin, order, p, q);
  }
}
