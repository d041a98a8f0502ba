/** The two tasks of a transfer as one worker runs them without interruption: the reservation of
    a nonce, and the transfer that spends it. */
module Tasks {
  import opened Basics
  import opened Nonces
  import opened Protocol
  import Locks

  datatype TransferResult =
    | Queued(nonce: nat)
    | NoReservation       // IntegrityError: the key is not reserved for the holder
    | QueueLocked         // LockedError: nothing is committed, the reservation stays
    | AlreadyQueued       // IntegrityError: the transaction is in the queue, nothing is committed

  /** The committed database, with one session at a time. */
  class Database {
    var tables: Tables
    var queue: seq<QueueRow>
    var locks: Locks.Table
    const chain: string

    constructor (t: Tables, q: seq<QueueRow>, l: Locks.Table, c: string)
      ensures tables == t && queue == q && locks == l && chain == c
    {
      tables := t;
      queue := q;
      locks := l;
      chain := c;
    }

    method ReserveNonce(a: Address, key: string) returns (r: Outcome)
      modifies this`tables
      ensures (tables, r) == Reserve(old(tables), a, key)
    {
      var session := new Session(tables);
      r := session.Next(a, key);
      if r.KeyActive? {
        return;
      }
      tables := session.State();
    }

    // Insert the row unless the queue is locked for the holder or has the transaction: one of
    // the same sender, nonce and content.
    method QueueCreate(rows: seq<QueueRow>, row: QueueRow) returns (created: seq<QueueRow>, locked: bool, taken: bool)
      ensures locked <==>
              var global, own := Locks.Key(chain, ZERO_ADDRESS), Locks.Key(chain, row.sender);
              (global in locks && Locks.QUEUE <= locks[global]) || (own in locks && Locks.QUEUE <= locks[own])
      ensures taken <==>
              && !locked
              && exists other :: other in rows && other.sender == row.sender && other.nonce == row.nonce &&
                                 other.content == row.content
      ensures created == if locked || taken then rows else rows + [row]
    {
      Locks.AggregateHoldsBack(locks, chain, Locks.QUEUE, row.sender);
      var lock := Locks.CheckAggregate(locks, chain, Locks.QUEUE, row.sender);
      if lock != {} {
        return rows, true, false;
      }
      if InQueue(rows, row.sender, row.nonce, row.content) {
        return rows, false, true;
      }
      created, locked, taken := rows + [row], false, false;
    }

    /** Release the nonce, queue the transaction signed with it, and commit both or neither. It
        goes through exactly if the nonce is reserved, neither lock row has the QUEUE bit, and no
        queued transaction of the holder has this very nonce and content. */
    method Transfer(holder: Address, key: string, content: Content) returns (r: TransferResult)
      modifies this`tables, this`queue
      ensures r.NoReservation? <==> Find(old(tables).reservations, holder, key).None?
      ensures r.QueueLocked? <==>
              var global, own := Locks.Key(chain, ZERO_ADDRESS), Locks.Key(chain, holder);
              && Find(old(tables).reservations, holder, key).Some?
              && ((global in locks && Locks.QUEUE <= locks[global]) || (own in locks && Locks.QUEUE <= locks[own]))
      ensures r.AlreadyQueued? <==>
              && Find(old(tables).reservations, holder, key).Some?
              && !r.QueueLocked?
              && exists row :: row in old(queue) && row.sender == holder && row.content == content &&
                               row.nonce == Find(old(tables).reservations, holder, key).value.nonce
      ensures !r.Queued? ==> tables == old(tables) && queue == old(queue)
      ensures r.Queued? ==>
                && r.nonce == Find(old(tables).reservations, holder, key).value.nonce
                && (tables, Done(key, r.nonce)) == Release(old(tables), holder, key)
                && queue == old(queue) + [QueueRow(holder, r.nonce, content, ByTransfer(key))]
    {
      var session := new Session(tables);
      var released := session.ReleaseKey(holder, key);
      if released.KeyUnknown? {
        return NoReservation;
      }
      var rows, locked, taken := QueueCreate(queue, QueueRow(holder, released.nonce, content, ByTransfer(key)));
      if locked {
        return QueueLocked;
      }
      if taken {
        return AlreadyQueued;
      }
      queue := rows;
      tables := session.State();
      r := Queued(released.nonce);
    }
  }

  // ----- an uninterrupted task is one run of the protocol -----

  // From the peek to the locked counter row.
  lemma HoldCounter(s: World, steps: seq<Step>, w: Worker, a: Address, key: string) returns (more: seq<Step>)
    requires Runs(s, steps)
    requires var t := After(s, steps); w in t.work && t.work[w] == Peeked(a, key) && RowFree(t, a)
    ensures Runs(s, more)
    ensures var t := After(s, steps); After(s, more) == Continue(t, w, Holding(a, key, Upcoming(t.tables, a, 0)))
  {
    var t := After(s, steps);
    more := OneMoreStep(s, steps, ReadCounter(w));
    if a in t.tables.counters {
      assert After(s, more) == Continue(t, w, CounterSeen(a, key));
      more := OneMoreStep(s, more, LockCounter(w));
    } else {
      assert After(s, more) == Continue(t, w, CounterMissing(a, key));
      more := OneMoreStep(s, more, InsertCounter(w));
    }
  }

  // What a committed reservation leaves.
  function WithReservation(t: Tables, a: Address, key: string, nonce: nat): Tables {
    Tables(t.counters[a := nonce + 1], t.reservations + [Reservation(t.nextId, a, key, nonce)], t.nextId + 1)
  }

  lemma ReserveOfFreeKey(t: Tables, a: Address, key: string)
    requires Find(t.reservations, a, key).None?
    ensures Reserve(t, a, key).0 == WithReservation(t, a, key, Upcoming(t, a, 0))
  {
  }

  // From the locked counter row to the commit.
  lemma CommitHeld(s: World, steps: seq<Step>, w: Worker, a: Address, key: string, nonce: nat)
    returns (more: seq<Step>)
    requires w !in s.work && Runs(s, steps) && After(s, steps) == Continue(s, w, Holding(a, key, nonce))
    ensures Runs(s, more) && After(s, more) == s.(tables := WithReservation(s.tables, a, key, nonce))
  {
    more := OneMoreStep(s, steps, CommitReserve(w));
    WorkRestored(s, w, Holding(a, key, nonce));
  }

  lemma WorkRestored(s: World, w: Worker, o: Work)
    requires w !in s.work
    ensures Finish(Continue(s, w, o), w) == s
  {
    assert s.work[w := o] - {w} == s.work;
  }

  /** The steps of a reservation, taken without interruption, do what the task does. */
  lemma ReserveAsRun(s: World, w: Worker, a: Address, key: string) returns (steps: seq<Step>)
    requires w !in s.work && RowFree(s, a)
    ensures Runs(s, steps)
    ensures After(s, steps) == s.(tables := Reserve(s.tables, a, key).0)
  {
    assert Runs(s, []) && After(s, []) == s;
    steps := OneMoreStep(s, [], BeginReserve(w, a, key));
    if Find(s.tables.reservations, a, key).None? {
      assert After(s, steps) == Continue(s, w, Peeked(a, key));
      steps := HoldCounter(s, steps, w, a, key);
      assert After(s, steps) == Continue(s, w, Holding(a, key, Upcoming(s.tables, a, 0)));
      steps := CommitHeld(s, steps, w, a, key, Upcoming(s.tables, a, 0));
      ReserveOfFreeKey(s.tables, a, key);
    }
  }

  /** The steps of a transfer, taken without interruption while no other session holds the
      reservation, do what the task does. */
  lemma TransferAsRun(s: World, w: Worker, a: Address, key: string, c: Content) returns (steps: seq<Step>)
    requires w !in s.work
    requires Find(s.tables.reservations, a, key).Some? ==>
             ReservationFree(s, Find(s.tables.reservations, a, key).value.id)
    ensures Runs(s, steps)
    ensures After(s, steps) ==
            match Find(s.tables.reservations, a, key) {
              case None => s
              case Some(row) =>
                if Gated(s, a) || InQueue(s.queue, a, row.nonce, c) then s
                else
                  s.(tables := Release(s.tables, a, key).0,
                     queue := s.queue + [QueueRow(a, row.nonce, c, ByTransfer(key))])
            }
  {
    assert Runs(s, []) && After(s, []) == s;
    steps := OneMoreStep(s, [], BeginTransfer(w, a, key));
    if Find(s.tables.reservations, a, key).Some? {
      var found := Find(s.tables.reservations, a, key).value;
      assert After(s, steps) == Continue(s, w, ReservationRead(a, key, found.id, found.nonce));
      if Gated(s, a) || InQueue(s.queue, a, found.nonce, c) {
        steps := FailRead(s, steps, w, a, key, found.id, found.nonce, c);
      } else {
        steps := SpendRead(s, steps, w, a, key, found.id, found.nonce, c);
      }
      assert After(s, steps).work == s.work;
    }
  }

  // A transfer that meets the lock, or its own transaction in the queue, ends without a trace.
  lemma FailRead(s: World, steps: seq<Step>, w: Worker, a: Address, key: string, id: nat, nonce: nat, c: Content)
    returns (more: seq<Step>)
    requires Runs(s, steps)
    requires var t := After(s, steps);
             && (Gated(t, a) || InQueue(t.queue, a, nonce, c))
             && w in t.work && t.work[w] == ReservationRead(a, key, id, nonce) && ReservationFree(t, id)
    ensures Runs(s, more)
    ensures After(s, more) == Finish(After(s, steps), w)
  {
    var t := After(s, steps);
    more := OneMoreStep(s, steps, DeleteReservation(w));
    more := OneMoreStep(s, more, CheckQueueLock(w, c));
    if Gated(t, a) {
      assert After(s, more).work == t.work - {w};
    } else {
      assert After(s, more).work == t.work[w := Cleared(a, key, id, nonce, c)];
      more := OneMoreStep(s, more, CommitTransfer(w));
      assert After(s, more).work == t.work - {w};
    }
  }

  lemma OneMoreExclusive(s: World, steps: seq<Step>, step: Step) returns (more: seq<Step>)
    requires Runs(s, steps) && ExclusiveRun(s, steps) && Enabled(After(s, steps), step)
    requires KeyExclusive(After(s, steps), step)
    ensures Runs(s, more) && ExclusiveRun(s, more) && After(s, more) == Apply(After(s, steps), step)
  {
    ExclusiveFurther(s, steps, step);
    RunsFurther(s, steps, step);
    more := steps + [step];
  }

  /** The tasks of a chain, from nothing: under exclusive keys the first nonce is reserved, and then
      spent on one queued transaction. */
  lemma ReserveThenTransfer(s: World, initial: map<Address, nat>, a: Address, key: string, c: Content)
    returns (steps: seq<Step>)
    requires Fresh(s, initial) && !Gated(s, a) && a !in initial
    ensures Runs(s, steps) && ExclusiveRun(s, steps)
    ensures After(s, steps).queue == [QueueRow(a, 0, c, ByTransfer(key))]
    ensures After(s, steps).tables.reservations == [] && After(s, steps).tables.counters == initial[a := 1]
  {
    var row := Reservation(s.tables.nextId, a, key, 0);
    steps := ReserveExclusively(s, initial, a, key);
    assert Find([row], a, key) == Some(row) && WithoutId([row], row.id) == [];
    steps := SpendExclusively(s, steps, a, key, row, c);
  }

  lemma ReserveExclusively(s: World, initial: map<Address, nat>, a: Address, key: string) returns (steps: seq<Step>)
    requires Fresh(s, initial) && a !in initial
    ensures Runs(s, steps) && ExclusiveRun(s, steps)
    ensures var row := Reservation(s.tables.nextId, a, key, 0);
            After(s, steps) == s.(tables := Tables(initial[a := 1], [row], s.tables.nextId + 1))
  {
    assert Runs(s, []) && After(s, []) == s && ExclusiveRun(s, []);
    steps := OneMoreExclusive(s, [], BeginReserve(0, a, key));
    assert After(s, steps) == Continue(s, 0, Peeked(a, key));
    steps := OneMoreExclusive(s, steps, ReadCounter(0));
    assert After(s, steps) == Continue(s, 0, CounterMissing(a, key));
    steps := HoldAndCommit(s, steps, a, key);
    WorkRestored(s, 0, Holding(a, key, 0));
  }

  lemma HoldAndCommit(s: World, steps: seq<Step>, a: Address, key: string) returns (more: seq<Step>)
    requires Runs(s, steps) && ExclusiveRun(s, steps) && s.work == map[] && a !in s.tables.counters
    requires After(s, steps) == Continue(s, 0, CounterMissing(a, key))
    ensures Runs(s, more) && ExclusiveRun(s, more)
    ensures After(s, more) ==
            Finish(Continue(s, 0, Holding(a, key, 0)), 0).(tables := Tables(
              s.tables.counters[a := 1],
              s.tables.reservations + [Reservation(s.tables.nextId, a, key, 0)],
              s.tables.nextId + 1))
  {
    more := OneMoreExclusive(s, steps, InsertCounter(0));
    assert After(s, more) == Continue(s, 0, Holding(a, key, 0));
    more := OneMoreExclusive(s, more, CommitReserve(0));
  }

  lemma SpendExclusively(s: World, steps: seq<Step>, a: Address, key: string, row: Reservation, c: Content)
    returns (more: seq<Step>)
    requires Runs(s, steps) && ExclusiveRun(s, steps)
    requires var t := After(s, steps);
             && t.work == map[] && t.queue == [] && !Gated(t, a)
             && row.address == a && row.key == key && Find(t.tables.reservations, a, key) == Some(row)
    ensures Runs(s, more) && ExclusiveRun(s, more)
    ensures var t := After(s, steps);
            && After(s, more).queue == [QueueRow(a, row.nonce, c, ByTransfer(key))]
            && After(s, more).tables == t.tables.(reservations := WithoutId(t.tables.reservations, row.id))
  {
    var t := After(s, steps);
    more := OneMoreExclusive(s, steps, BeginTransfer(0, a, key));
    assert After(s, more) == Continue(t, 0, ReservationRead(a, key, row.id, row.nonce));
    more := OneMoreExclusive(s, more, DeleteReservation(0));
    assert After(s, more) == Continue(t, 0, Released(a, key, row.id, row.nonce));
    more := ClearAndCommit(s, more, t, a, key, row, c);
  }

  lemma ClearAndCommit(s: World, steps: seq<Step>, t: World, a: Address, key: string, row: Reservation, c: Content)
    returns (more: seq<Step>)
    requires Runs(s, steps) && ExclusiveRun(s, steps) && t.work == map[] && t.queue == [] && !Gated(t, a)
    requires After(s, steps) == Continue(t, 0, Released(a, key, row.id, row.nonce))
    ensures Runs(s, more) && ExclusiveRun(s, more)
    ensures After(s, more).queue == [QueueRow(a, row.nonce, c, ByTransfer(key))]
    ensures After(s, more).tables == t.tables.(reservations := WithoutId(t.tables.reservations, row.id))
  {
    more := OneMoreExclusive(s, steps, CheckQueueLock(0, c));
    assert After(s, more) == Continue(t, 0, Cleared(a, key, row.id, row.nonce, c));
    more := OneMoreExclusive(s, more, CommitTransfer(0));
  }

  /** One payment made twice is two transactions: with one content at two reserved nonces, both
      rows are queued. */
  lemma SamePaymentAtTwoNonces(s: World, a: Address, c: Content) returns (steps: seq<Step>)
    requires s.work == map[] && s.queue == [] && !Gated(s, a)
    requires s.tables.reservations == [Reservation(0, a, "k0", 0), Reservation(1, a, "k1", 1)]
    ensures Runs(s, steps)
    ensures After(s, steps).queue == [QueueRow(a, 0, c, ByTransfer("k0")), QueueRow(a, 1, c, ByTransfer("k1"))]
  {
    FindFirstThenSecond(Reservation(0, a, "k0", 0), Reservation(1, a, "k1", 1));
    assert Runs(s, []) && After(s, []) == s;
    steps := BeginAndSpend(s, [], a, "k0", Reservation(0, a, "k0", 0), c);
    steps := BeginAndSpend(s, steps, a, "k1", Reservation(1, a, "k1", 1), c);
  }

  lemma FindFirstThenSecond(first: Reservation, second: Reservation)
    requires first.id != second.id && first.key != second.key
    ensures Find([first, second], first.address, first.key) == Some(first)
    ensures WithoutId([first, second], first.id) == [second]
    ensures Find([second], second.address, second.key) == Some(second)
  {
    assert [first, second][1..] == [second] && [second][1..] == [];
    assert WithoutId([second], first.id) == [second] + WithoutId([], first.id);
  }

  // A transfer that is alone, unlocked and new.
  lemma BeginAndSpend(s: World, steps: seq<Step>, a: Address, key: string, row: Reservation, c: Content)
    returns (more: seq<Step>)
    requires Runs(s, steps)
    requires var t := After(s, steps);
             && t.work == map[] && !Gated(t, a) && !InQueue(t.queue, a, row.nonce, c)
             && row.address == a && row.key == key && Find(t.tables.reservations, a, key) == Some(row)
    ensures Runs(s, more)
    ensures var t := After(s, steps);
            After(s, more) == t.(tables := t.tables.(reservations := WithoutId(t.tables.reservations, row.id)),
                                 queue := t.queue + [QueueRow(a, row.nonce, c, ByTransfer(key))])
  {
    var t := After(s, steps);
    more := OneMoreStep(s, steps, BeginTransfer(0, a, key));
    more := SpendRead(s, more, 0, a, key, row.id, row.nonce, c);
    assert After(s, more).work == t.work;
  }
}
