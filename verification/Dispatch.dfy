/** Sending queued transactions: each round picks, for every sender that may send, the queued
    transaction with the lowest nonce, and takes it out of the queued state. */
module Dispatch {
  import opened Basics
  import opened Queue
  import Locks

  // Index i holds a queued transaction of the sender.
  predicate QueuedAt(rows: seq<Row>, i: int, sender: Address) {
    0 <= i < |rows| && rows[i].cache.Some? && rows[i].cache.value.sender == sender && QUEUED in rows[i].status
  }

  ghost predicate HasQueued(rows: seq<Row>, sender: Address) {
    exists i :: QueuedAt(rows, i, sender)
  }

  // The outer join with the lock table is on the address alone: a sender may send if it has
  // no lock row at all, or one, on whatever chain, without the SEND bit.
  predicate MaySend(locks: Locks.Table, sender: Address) {
    (forall k | k in locks :: k.address != sender) ||
    (exists k | k in locks :: k.address == sender && locks[k] * Locks.SEND == {})
  }

  ghost predicate Eligible(rows: seq<Row>, locks: Locks.Table, sender: Address) {
    MaySend(locks, sender) && HasQueued(rows, sender)
  }

  // Index i is the sender's choice: of the lowest queued nonce, checked last.
  ghost predicate Chosen(rows: seq<Row>, checked: seq<nat>, i: int, sender: Address)
    requires |checked| == |rows|
  {
    && QueuedAt(rows, i, sender)
    && forall j :: QueuedAt(rows, j, sender) ==>
      rows[i].tx.nonce < rows[j].tx.nonce || (rows[i].tx.nonce == rows[j].tx.nonce && checked[j] <= checked[i])
  }

  // One round's choices: exactly the senders that are eligible, each with its lowest nonce.
  ghost predicate RoundPicks(rows: seq<Row>, locks: Locks.Table, picks: map<Address, nat>) {
    && (forall a :: a in picks <==> Eligible(rows, locks, a))
    && (forall a | a in picks :: QueuedAt(rows, picks[a], a))
    && (forall a, j | a in picks && QueuedAt(rows, j, a) :: rows[picks[a]].tx.nonce <= rows[j].tx.nonce)
  }

  // Each pick is its sender's choice by the check times before the round.
  ghost predicate AllChosen(rows: seq<Row>, checked: seq<nat>, picks: map<Address, nat>) {
    |checked| == |rows| && forall a | a in picks :: Chosen(rows, checked, picks[a], a)
  }

  ghost predicate PicksLowest(rows: seq<Row>, picks: map<Address, nat>, lowest: map<Address, nat>) {
    forall a | a in picks :: a in lowest && QueuedAt(rows, picks[a], a) && rows[picks[a]].tx.nonce == lowest[a]
  }

  // The picked rows, and no others, have been checked now.
  ghost predicate Marked(before: seq<nat>, checked: seq<nat>, picks: map<Address, nat>, now: nat) {
    && |checked| == |before|
    && forall i :: 0 <= i < |checked| ==> checked[i] == if i in picks.Values then now else before[i]
  }

  lemma NextPick(rows: seq<Row>, before: seq<nat>, checked: seq<nat>, picks: map<Address, nat>, now: nat, a: Address,
                 pick: nat)
    requires AllChosen(rows, before, picks) && Marked(before, checked, picks, now) && a !in picks
    requires QueuedAt(rows, pick, a)
    requires forall j :: QueuedAt(rows, j, a) ==> rows[pick].tx.nonce <= rows[j].tx.nonce
    requires forall j :: QueuedAt(rows, j, a) && rows[j].tx.nonce == rows[pick].tx.nonce ==> checked[j] <= checked[pick]
    ensures AllChosen(rows, before, picks[a := pick]) && Marked(before, checked[pick := now], picks[a := pick], now)
  {
    forall j | QueuedAt(rows, j, a) ensures checked[j] == before[j] {
      OwnerOfPick(rows, picks, j, a);
    }
    assert Chosen(rows, before, pick, a);
    ValuesAfterInsert(picks, a, pick);
  }

  /** A round picks for a sender exactly if it may send and has a row in the queue with the QUEUED
      bit, and picks such a row, of the least nonce. */
  lemma PickedExactly(rows: seq<Row>, locks: Locks.Table, picks: map<Address, nat>, a: Address)
    requires RoundPicks(rows, locks, picks)
    ensures a in picks <==>
            && MaySend(locks, a)
            && exists i :: 0 <= i < |rows| && rows[i].cache.Some? && rows[i].cache.value.sender == a &&
                           QUEUED in rows[i].status
    ensures a in picks ==>
              && picks[a] < |rows|
              && var row := rows[picks[a]];
                 && row.cache.Some? && row.cache.value.sender == a && QUEUED in row.status
                 && forall i | 0 <= i < |rows| && rows[i].cache.Some? && rows[i].cache.value.sender == a &&
                               QUEUED in rows[i].status :: row.tx.nonce <= rows[i].tx.nonce
  {
    assert a in picks <==> Eligible(rows, locks, a);
    forall i | 0 <= i < |rows| && rows[i].cache.Some? && rows[i].cache.value.sender == a && QUEUED in rows[i].status
      ensures QueuedAt(rows, i, a)
    {
    }
  }

  // A reserved row is no longer queued.
  function ReservedRow(row: Row): Row {
    row.(status := row.status - {QUEUED} + {RESERVED})
  }

  class Dispatcher {
    var rows: seq<Row>
    var checked: seq<nat>        // date_checked of each cache row

    constructor (queue: seq<Row>, times: seq<nat>)
      requires |times| == |queue|
      ensures rows == queue && checked == times
    {
      rows := queue;
      checked := times;
    }

    // The grouping query: the lowest queued nonce of every sender that may send.
    method LowestNonces(locks: Locks.Table) returns (lowest: map<Address, nat>)
      ensures forall a :: a in lowest <==> Eligible(rows, locks, a)
      ensures forall a | a in lowest :: exists i :: QueuedAt(rows, i, a) && rows[i].tx.nonce == lowest[a]
      ensures forall a, j | a in lowest && QueuedAt(rows, j, a) :: lowest[a] <= rows[j].tx.nonce
    {
      lowest := map[];
      for n := 0 to |rows|
        invariant forall a :: a in lowest <==> MaySend(locks, a) && exists i :: i < n && QueuedAt(rows, i, a)
        invariant forall a | a in lowest :: exists i :: QueuedAt(rows, i, a) && rows[i].tx.nonce == lowest[a]
        invariant forall a, j | a in lowest && j < n && QueuedAt(rows, j, a) :: lowest[a] <= rows[j].tx.nonce
      {
        var row := rows[n];
        if row.cache.Some? && QUEUED in row.status && MaySend(locks, row.cache.value.sender) {
          var a := row.cache.value.sender;
          assert QueuedAt(rows, n, a);
          if a !in lowest || row.tx.nonce < lowest[a] {
            lowest := lowest[a := row.tx.nonce];
          }
        }
      }
    }

    // The inner query: of the sender's queued rows with the nonce, the one checked last.
    method PickRow(a: Address, nonce: nat) returns (pick: nat)
      requires |checked| == |rows|
      requires exists i :: QueuedAt(rows, i, a) && rows[i].tx.nonce == nonce
      ensures QueuedAt(rows, pick, a) && rows[pick].tx.nonce == nonce
      ensures forall j :: QueuedAt(rows, j, a) && rows[j].tx.nonce == nonce ==> checked[j] <= checked[pick]
    {
      pick := |rows|;
      for n := 0 to |rows|
        invariant pick <= |rows|
        invariant pick < |rows| ==> QueuedAt(rows, pick, a) && rows[pick].tx.nonce == nonce
        invariant forall j :: QueuedAt(rows, j, a) && rows[j].tx.nonce == nonce && j < n ==>
                    pick < |rows| && checked[j] <= checked[pick]
      {
        if QueuedAt(rows, n, a) && rows[n].tx.nonce == nonce {
          if pick == |rows| || checked[n] > checked[pick] {
            pick := n;
          }
        }
      }
    }

    /** The upcoming transactions, by sender; each is marked as checked now. */
    method GetUpcoming(locks: Locks.Table, now: nat) returns (picks: map<Address, nat>)
      requires |checked| == |rows|
      modifies this`checked
      ensures RoundPicks(rows, locks, picks)
      ensures AllChosen(rows, old(checked), picks) && Marked(old(checked), checked, picks, now)
      ensures |checked| == |rows|
      ensures forall a, j | a in picks && QueuedAt(rows, j, a) && rows[j].tx.nonce == rows[picks[a]].tx.nonce ::
                old(checked)[j] <= old(checked)[picks[a]]
      ensures forall i | 0 <= i < |rows| ::
                checked[i] == if exists a :: a in picks && picks[a] == i then now else old(checked)[i]
    {
      var lowest := LowestNonces(locks);
      picks := map[];
      var todo := lowest.Keys;
      while todo != {}
        invariant todo <= lowest.Keys && picks.Keys == lowest.Keys - todo
        invariant |checked| == |rows|
        invariant PicksLowest(rows, picks, lowest)
        invariant AllChosen(rows, old(checked), picks) && Marked(old(checked), checked, picks, now)
        decreases todo
      {
        var a :| a in todo;
        var pick := PickRow(a, lowest[a]);
        NextPick(rows, old(checked), checked, picks, now, a, pick);
        picks := picks[a := pick];
        checked := checked[pick := now];
        todo := todo - {a};
      }
    }

    /** Reserve the picked rows; a row whose state change is refused stays as it is. */
    method ProcessPicks(picks: map<Address, nat>, refused: set<nat>)
      requires forall a | a in picks :: QueuedAt(rows, picks[a], a)
      modifies this`rows
      ensures rows == NextRows(old(rows), picks, refused)
      ensures |rows| == |old(rows)|
      ensures forall i | 0 <= i < |rows| ::
                var row := old(rows)[i];
                rows[i] == if (exists a :: a in picks && picks[a] == i) && i !in refused
                           then Row(row.tx, row.status - {QUEUED} + {RESERVED}, row.cache) else row
    {
      ghost var before := rows;
      var todo := picks.Keys;
      ghost var done: map<Address, nat> := map[];
      while todo != {}
        invariant todo <= picks.Keys && done == picks - todo
        invariant rows == NextRows(before, done, refused)
        decreases todo
      {
        var a :| a in todo;
        var i := picks[a];
        assert a !in done;
        OwnerOfPick(before, done, i, a);
        ValuesAfterInsert(done, a, i);
        if i !in refused {
          rows := rows[i := ReservedRow(rows[i])];
        }
        done := done[a := i];
        todo := todo - {a};
      }
      assert done == picks;
    }

    // One round of the loop: pick, and reserve what was picked.
    method RunRound(locks: Locks.Table, now: nat, refused: set<nat>)
      returns (picks: map<Address, nat>, nonces: map<Address, nat>)
      requires |checked| == |rows|
      modifies this
      ensures |checked| == |rows| && Round(old(rows), rows, locks, picks, refused, nonces)
      ensures nonces.Keys == picks.Keys
      ensures forall a | a in picks :: picks[a] < |old(rows)| && nonces[a] == old(rows)[picks[a]].tx.nonce
    {
      picks := GetUpcoming(locks, now);
      nonces := map a | a in picks :: rows[picks[a]].tx.nonce;
      ProcessPicks(picks, refused);
    }

    /** The dispatch loop for as many rounds as refusals are given, with no lock change and no
        new rows in between. The history has the nonce dispatched for each sender; the trace
        has the queue before each round and at the end, and what each round picked. */
    method Loop(locks: Locks.Table, now: nat, refusals: seq<set<nat>>)
      returns (history: seq<map<Address, nat>>, ghost trace: seq<seq<Row>>, ghost chosen: seq<map<Address, nat>>)
      requires |checked| == |rows|
      modifies this
      ensures |checked| == |rows| && |history| == |refusals|
      ensures Traced(old(rows), rows, locks, refusals, history, trace, chosen)
      ensures NeverBack(history)
      ensures (forall i | 0 <= i < |refusals| :: refusals[i] == {}) ==> Drained(old(rows), rows, locks, |refusals|)
    {
      history, trace, chosen := [], [rows], [];
      for round := 0 to |refusals|
        invariant |checked| == |rows| && |history| == round
        invariant Traced(old(rows), rows, locks, refusals[..round], history, trace, chosen)
      {
        ghost var before := rows;
        var picks, nonces := RunRound(locks, now + round, refusals[round]);
        TracedNext(old(rows), before, rows, locks, refusals, round, history, trace, chosen, picks, nonces);
        history, trace, chosen := history + [nonces], trace + [rows], chosen + [picks];
      }
      assert refusals[..|refusals|] == refusals;
      TraceNeverGoesBack(old(rows), rows, locks, refusals, history, trace, chosen);
      if forall i | 0 <= i < |refusals| :: refusals[i] == {} {
        TraceDrains(old(rows), rows, locks, refusals, history, trace, chosen);
      }
    }
  }

  // One round: what it picks, what it leaves of the queue, and the nonces it dispatches.
  ghost predicate Round(before: seq<Row>, after: seq<Row>, locks: Locks.Table, picks: map<Address, nat>,
                        refused: set<nat>, nonces: map<Address, nat>) {
    && RoundPicks(before, locks, picks) && after == NextRows(before, picks, refused)
    && nonces == map a | a in picks :: before[picks[a]].tx.nonce
  }

  // The rounds from the one queue to the other, in order.
  ghost predicate Traced(start: seq<Row>, end: seq<Row>, locks: Locks.Table, refusals: seq<set<nat>>,
                         history: seq<map<Address, nat>>, trace: seq<seq<Row>>, chosen: seq<map<Address, nat>>) {
    && |trace| == |refusals| + 1 && |chosen| == |refusals| == |history|
    && trace[0] == start && trace[|refusals|] == end
    && forall i | 0 <= i < |refusals| :: Round(trace[i], trace[i + 1], locks, chosen[i], refusals[i], history[i])
  }

  lemma TracedNext(start: seq<Row>, rows: seq<Row>, after: seq<Row>, locks: Locks.Table, refusals: seq<set<nat>>,
                   n: nat,
                   history: seq<map<Address, nat>>, trace: seq<seq<Row>>, chosen: seq<map<Address, nat>>,
                   picks: map<Address, nat>, nonces: map<Address, nat>)
    requires n < |refusals| && Traced(start, rows, locks, refusals[..n], history, trace, chosen)
    requires Round(rows, after, locks, picks, refusals[n], nonces)
    ensures Traced(start, after, locks, refusals[..n + 1], history + [nonces], trace + [after], chosen + [picks])
  {
  }

  lemma TracedFront(start: seq<Row>, end: seq<Row>, locks: Locks.Table, refusals: seq<set<nat>>,
                    history: seq<map<Address, nat>>, trace: seq<seq<Row>>, chosen: seq<map<Address, nat>>)
    requires Traced(start, end, locks, refusals, history, trace, chosen) && refusals != []
    ensures var n := |refusals| - 1;
            && Traced(start, trace[n], locks, refusals[..n], history[..n], trace[..n + 1], chosen[..n])
            && Round(trace[n], end, locks, chosen[n], refusals[n], history[n])
  {
  }

  lemma {:induction false} TraceNeverGoesBack(start: seq<Row>, end: seq<Row>, locks: Locks.Table,
                                              refusals: seq<set<nat>>,
                                              history: seq<map<Address, nat>>, trace: seq<seq<Row>>,
                                              chosen: seq<map<Address, nat>>)
    requires Traced(start, end, locks, refusals, history, trace, chosen)
    ensures NeverBack(history) && Floor(history, end)
    decreases |refusals|
  {
    if refusals == [] {
    } else {
      var n := |refusals| - 1;
      TracedFront(start, end, locks, refusals, history, trace, chosen);
      TraceNeverGoesBack(start, trace[n], locks, refusals[..n], history[..n], trace[..n + 1], chosen[..n]);
      FloorAfterRound(trace[n], locks, chosen[n], refusals[n], history[..n], history[n]);
      assert history == history[..n] + [history[n]];
    }
  }

  lemma {:induction false} TraceDrains(start: seq<Row>, end: seq<Row>, locks: Locks.Table, refusals: seq<set<nat>>,
                                       history: seq<map<Address, nat>>, trace: seq<seq<Row>>,
                                       chosen: seq<map<Address, nat>>)
    requires Traced(start, end, locks, refusals, history, trace, chosen)
    requires forall i | 0 <= i < |refusals| :: refusals[i] == {}
    ensures Drained(start, end, locks, |refusals|)
    decreases |refusals|
  {
    if refusals == [] {
    } else {
      var n := |refusals| - 1;
      TracedFront(start, end, locks, refusals, history, trace, chosen);
      TraceDrains(start, trace[n], locks, refusals[..n], history[..n], trace[..n + 1], chosen[..n]);
      DrainedAfterRound(start, trace[n], locks, chosen[n], n);
    }
  }

  // The nonces dispatched for a sender never decrease from round to round.
  ghost predicate NeverBack(history: seq<map<Address, nat>>) {
    forall i, j, a | 0 <= i < j < |history| && a in history[i] && a in history[j] :: history[i][a] <= history[j][a]
  }

  // Nothing still queued for a sender has a lower nonce than what was dispatched for it.
  ghost predicate Floor(history: seq<map<Address, nat>>, rows: seq<Row>) {
    forall i, a, k | 0 <= i < |history| && a in history[i] && QueuedAt(rows, k, a) :: history[i][a] <= rows[k].tx.nonce
  }

  // After n rounds a sender that may send has n queued rows less, or none; any other has as many.
  ghost predicate Drained(start: seq<Row>, rows: seq<Row>, locks: Locks.Table, n: nat) {
    forall a :: |QueuedBy(rows, a)| == if MaySend(locks, a) then Less(|QueuedBy(start, a)|, n) else |QueuedBy(start, a)|
  }

  lemma FloorAfterRound(rows: seq<Row>, locks: Locks.Table, picks: map<Address, nat>, refused: set<nat>,
                        history: seq<map<Address, nat>>, nonces: map<Address, nat>)
    requires RoundPicks(rows, locks, picks) && NeverBack(history) && Floor(history, rows)
    requires nonces == map a | a in picks :: rows[picks[a]].tx.nonce
    ensures NeverBack(history + [nonces]) && Floor(history + [nonces], NextRows(rows, picks, refused))
  {
    var after := NextRows(rows, picks, refused);
    forall a, k: nat | QueuedAt(after, k, a) ensures QueuedAt(rows, k, a) && rows[k].tx == after[k].tx {
      QueuedAfterRound(rows, picks, refused, k, a);
    }
  }

  lemma DrainedAfterRound(start: seq<Row>, rows: seq<Row>, locks: Locks.Table, picks: map<Address, nat>, n: nat)
    requires RoundPicks(rows, locks, picks) && Drained(start, rows, locks, n)
    ensures Drained(start, NextRows(rows, picks, {}), locks, n + 1)
  {
    forall a
      ensures |QueuedBy(NextRows(rows, picks, {}), a)| ==
              if MaySend(locks, a) then Less(|QueuedBy(start, a)|, n + 1) else |QueuedBy(start, a)|
    {
      RoundTakesOne(rows, locks, picks, a);
    }
  }

  /** Without refusals, lock changes and new rows, every queue of a sender that may send is
      empty after as many rounds as it had rows, and no earlier. */
  lemma DrainsInAsManyRoundsAsRows(start: seq<Row>, rows: seq<Row>, locks: Locks.Table, n: nat, a: Address)
    requires Drained(start, rows, locks, n) && MaySend(locks, a)
    ensures HasQueued(rows, a) <==> n < |QueuedBy(start, a)|
  {
    assert |QueuedBy(rows, a)| == Less(|QueuedBy(start, a)|, n);
    if i :| QueuedAt(rows, i, a) {
      assert i in QueuedBy(rows, a);
    } else {
      assert QueuedBy(rows, a) == {};
    }
  }

  function Less(n: nat, m: nat): nat {
    if m <= n then n - m else 0
  }

  // The rows after a round.
  function NextRows(rows: seq<Row>, picks: map<Address, nat>, refused: set<nat>): (r: seq<Row>)
    ensures |r| == |rows|
  {
    seq(|rows|, i requires 0 <= i < |rows| =>
      if i in picks.Values && i !in refused then ReservedRow(rows[i]) else rows[i])
  }

  function QueuedBy(rows: seq<Row>, sender: Address): set<nat> {
    set i: nat | i < |rows| && QueuedAt(rows, i, sender)
  }

  // A queued row of a sender is picked only as that sender's.
  lemma OwnerOfPick(rows: seq<Row>, picks: map<Address, nat>, i: int, a: Address)
    requires forall b | b in picks :: QueuedAt(rows, picks[b], b)
    requires QueuedAt(rows, i, a)
    ensures i in picks.Values <==> a in picks && picks[a] == i
  {
  }

  lemma ValuesAfterInsert(picks: map<Address, nat>, a: Address, i: nat)
    requires a !in picks
    ensures picks[a := i].Values == picks.Values + {i}
  {
    var after := picks[a := i];
    assert after[a] == i;
    forall b | b in picks ensures picks[b] in after.Values {
      assert after[b] == picks[b];
    }
  }

  lemma QueuedAfterRound(rows: seq<Row>, picks: map<Address, nat>, refused: set<nat>, i: nat, a: Address)
    requires forall b | b in picks :: QueuedAt(rows, picks[b], b)
    ensures QueuedAt(NextRows(rows, picks, refused), i, a) <==>
            QueuedAt(rows, i, a) && !(a in picks && i == picks[a] && i !in refused)
  {
    if QueuedAt(rows, i, a) {
      OwnerOfPick(rows, picks, i, a);
    }
  }

  /** A round without refusals takes exactly one queued row from every sender that may send
      and has one, and none from any other. */
  lemma RoundTakesOne(rows: seq<Row>, locks: Locks.Table, picks: map<Address, nat>, a: Address)
    requires RoundPicks(rows, locks, picks)
    ensures |QueuedBy(NextRows(rows, picks, {}), a)| ==
            if MaySend(locks, a) then Less(|QueuedBy(rows, a)|, 1) else |QueuedBy(rows, a)|
  {
    var after := NextRows(rows, picks, {});
    forall i: nat ensures QueuedAt(after, i, a) <==> QueuedAt(rows, i, a) && !(a in picks && i == picks[a]) {
      QueuedAfterRound(rows, picks, {}, i, a);
    }
    if a in picks {
      assert QueuedBy(after, a) == QueuedBy(rows, a) - {picks[a]};
      assert picks[a] in QueuedBy(rows, a);
      assert Eligible(rows, locks, a);
    } else {
      assert QueuedBy(after, a) == QueuedBy(rows, a);
      assert !Eligible(rows, locks, a);
      if MaySend(locks, a) {
        assert QueuedBy(rows, a) == {};
      }
    }
  }

  // ----- the SEND lock -----

  lemma SendBit(flags: Locks.Flags)
    ensures flags * Locks.SEND == if Locks.SEND <= flags then Locks.SEND else {}
  {
    assert flags * Locks.SEND == if 3 in flags then {3} else {};
  }

  /** A SEND lock on some chain holds the sender back exactly if every lock row of the sender,
      on whatever chain, has the SEND bit: the query takes any row of the address. */
  lemma SendLockHoldsExactly(locks: Locks.Table, chain: string, sender: Address)
    requires Locks.Check(locks, Locks.Key(chain, sender), Locks.SEND) == Locks.SEND
    ensures !MaySend(locks, sender) <==> forall k | k in locks && k.address == sender :: Locks.SEND <= locks[k]
  {
    var key := Locks.Key(chain, sender);
    assert key in locks && key.address == sender;
    forall k | k in locks ensures locks[k] * Locks.SEND == if Locks.SEND <= locks[k] then Locks.SEND else {} {
      SendBit(locks[k]);
    }
  }

  /** Whatever the locks, a sender may not send exactly if it has a lock row and all its lock rows
      have the SEND bit. */
  lemma MaySendExactly(locks: Locks.Table, sender: Address)
    ensures !MaySend(locks, sender) <==>
            && (exists k :: k in locks && k.address == sender)
            && forall k | k in locks && k.address == sender :: Locks.SEND <= locks[k]
  {
    forall k | k in locks ensures locks[k] * Locks.SEND == if Locks.SEND <= locks[k] then Locks.SEND else {} {
      SendBit(locks[k]);
    }
  }

  /** In every round, a sender that is locked on some chain and has a queued transaction is
      passed over exactly if all its lock rows have the bit. */
  lemma LockedSenderIsPassedOverExactly(rows: seq<Row>, locks: Locks.Table, picks: map<Address, nat>, chain: string,
                                        sender: Address)
    requires RoundPicks(rows, locks, picks) && HasQueued(rows, sender)
    requires Locks.Check(locks, Locks.Key(chain, sender), Locks.SEND) == Locks.SEND
    ensures sender !in picks <==> forall k | k in locks && k.address == sender :: Locks.SEND <= locks[k]
  {
    SendLockHoldsExactly(locks, chain, sender);
    assert sender in picks <==> Eligible(rows, locks, sender);
  }

  /** A sender with lock rows on a single chain is passed over exactly while that row has the
      SEND bit. */
  lemma SendLockOnOneChain(locks: Locks.Table, chain: string, sender: Address)
    requires forall k | k in locks && k.address == sender :: k.chain == chain
    ensures MaySend(locks, sender) <==> Locks.Check(locks, Locks.Key(chain, sender), Locks.SEND) == {}
  {
    var key := Locks.Key(chain, sender);
    assert forall k | k in locks && k.address == sender :: k == key;
    if key in locks {
      SendBit(locks[key]);
    }
  }

  /** Queueing locked on a second chain lets a sender through that is locked for sending on the
      first: its transaction is picked by the very next round. */
  lemma LockOnSecondChainLetsThrough(row: Row, c: string, d: string, picks: map<Address, nat>)
    requires row.cache.Some? && QUEUED in row.status && c != d
    requires var sender := row.cache.value.sender;
             RoundPicks([row],
                        Locks.Set(Locks.Set(map[], Locks.Key(c, sender), Locks.SEND),
                                  Locks.Key(d, sender), Locks.QUEUE),
                        picks)
    ensures picks == map[row.cache.value.sender := 0]
  {
    var sender := row.cache.value.sender;
    var locks := Locks.Set(Locks.Set(map[], Locks.Key(c, sender), Locks.SEND), Locks.Key(d, sender), Locks.QUEUE);
    assert locks[Locks.Key(d, sender)] == Locks.QUEUE;
    assert QueuedAt([row], 0, sender);
    assert Eligible([row], locks, sender);
    forall a | a in picks ensures a == sender && picks[a] == 0 {
      assert QueuedAt([row], picks[a], a);
    }
  }
}
