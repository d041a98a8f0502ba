/** Workers reserving nonces and spending them on transfers, step by step and interleaved.
    Each worker has one database session: what it writes is seen by the others only when it
    commits, and what it reads is whatever the others have committed at that moment. */
module Protocol {
  import opened Basics
  import opened Nonces
  import Locks

  type Worker = nat

  // Who put a row in the queue: a transfer task, a resend at a higher price, or a nonce shift.
  datatype Origin = ByTransfer(key: string) | ByResend | ByShift

  // What a signed transaction has besides sender and nonce: price, recipient, value.
  type Content = nat

  datatype QueueRow = QueueRow(sender: Address, nonce: nat, content: Content, origin: Origin)

  datatype Resend = Resend(address: Address, nonce: nat, content: Content)

  // How far the open session of a worker has come.
  datatype Work =
    // reserve_nonce: no active reservation of the key was seen
    | Peeked(address: Address, key: string)
    // reserve_nonce: a counter row was seen, or none was
    | CounterSeen(address: Address, key: string)
    | CounterMissing(address: Address, key: string)
    // reserve_nonce: the counter row is locked and, unseen by others, one higher
    | Holding(address: Address, key: string, nonce: nat)
    // transfer: the reservation was read
    | ReservationRead(address: Address, key: string, id: nat, nonce: nat)
    // transfer: the reservation is locked and, unseen by others, deleted
    | Released(address: Address, key: string, id: nat, nonce: nat)
    // transfer: the QUEUE lock was found open and the row is ready to be committed
    | Cleared(address: Address, key: string, id: nat, nonce: nat, content: Content)

  datatype World = World(
    tables: Tables,
    queue: seq<QueueRow>,
    chain: string,
    locks: Locks.Table,
    work: map<Worker, Work>,
    // resends that found the QUEUE lock open and have their row ready to be committed
    resends: map<Worker, Resend>)

  datatype Step =
    | BeginReserve(worker: Worker, address: Address, key: string)
    | ReadCounter(worker: Worker)
    | LockCounter(worker: Worker)
    | InsertCounter(worker: Worker)
    | CommitReserve(worker: Worker)
    | BeginTransfer(worker: Worker, address: Address, key: string)
    | DeleteReservation(worker: Worker)
    | CheckQueueLock(worker: Worker, content: Content)
    | CommitTransfer(worker: Worker)
    | Abort(worker: Worker)
    | SetLock(lockKey: Locks.Key, flags: Locks.Flags)
    | ResetLock(lockKey: Locks.Key, flags: Locks.Flags)
    | ClearResend(worker: Worker, address: Address, nonce: nat, content: Content)
    | CommitResend(worker: Worker)
    | AbortResend(worker: Worker)
    | ShiftRow(address: Address, nonce: nat, content: Content)

  // No session holds the lock on the counter row of the address.
  predicate RowFree(s: World, a: Address) {
    forall w | w in s.work :: !(s.work[w].Holding? && s.work[w].address == a)
  }

  // No session has deleted the reservation without having committed.
  predicate ReservationFree(s: World, id: nat) {
    forall w | w in s.work :: !((s.work[w].Released? || s.work[w].Cleared?) && s.work[w].id == id)
  }

  // A step a worker can take now; a step that waits for a row lock is not enabled.
  predicate Enabled(s: World, step: Step) {
    match step
    case BeginReserve(w, _, _) => w !in s.work
    case ReadCounter(w) => w in s.work && s.work[w].Peeked?
    case LockCounter(w) =>
      && w in s.work && s.work[w].CounterSeen?
      && s.work[w].address in s.tables.counters && RowFree(s, s.work[w].address)
    case InsertCounter(w) => w in s.work && s.work[w].CounterMissing? && RowFree(s, s.work[w].address)
    case CommitReserve(w) => w in s.work && s.work[w].Holding?
    case BeginTransfer(w, _, _) => w !in s.work
    case DeleteReservation(w) => w in s.work && s.work[w].ReservationRead? && ReservationFree(s, s.work[w].id)
    case CheckQueueLock(w, _) => w in s.work && s.work[w].Released?
    case CommitTransfer(w) => w in s.work && s.work[w].Cleared?
    case Abort(w) => w in s.work
    case SetLock(_, _) => true
    case ResetLock(_, _) => true
    case ClearResend(w, _, _, _) => w !in s.resends
    case CommitResend(w) => w in s.resends
    case AbortResend(w) => w in s.resends
    case ShiftRow(_, _, _) => true
  }

  function Continue(s: World, w: Worker, work: Work): World {
    s.(work := s.work[w := work])
  }

  // The session ends; whatever it did not commit is gone.
  function Finish(s: World, w: Worker): World {
    s.(work := s.work - {w})
  }

  function Apply(s: World, step: Step): World
    requires Enabled(s, step)
  {
    match step
    case BeginReserve(w, a, k) =>
      if Find(s.tables.reservations, a, k).Some? then s else Continue(s, w, Peeked(a, k))
    case ReadCounter(w) =>
      var o := s.work[w];
      Continue(s, w, if o.address in s.tables.counters then CounterSeen(o.address, o.key)
               else CounterMissing(o.address, o.key))
    case LockCounter(w) =>
      var o := s.work[w];
      Continue(s, w, Holding(o.address, o.key, s.tables.counters[o.address]))
    case InsertCounter(w) =>
      var o := s.work[w];
      // the address column is unique: a row committed in the meantime fails the insert
      if o.address in s.tables.counters then Finish(s, w)
      else Continue(s, w, Holding(o.address, o.key, 0))
    case CommitReserve(w) =>
      var o := s.work[w];
      Finish(s, w).(tables := Tables(
        s.tables.counters[o.address := o.nonce + 1],
        s.tables.reservations + [Reservation(s.tables.nextId, o.address, o.key, o.nonce)],
        s.tables.nextId + 1))
    case BeginTransfer(w, a, k) =>
      (match Find(s.tables.reservations, a, k)
       case None => s
       case Some(row) => Continue(s, w, ReservationRead(a, k, row.id, row.nonce)))
    case DeleteReservation(w) =>
      var o := s.work[w];
      // a row that another session has deleted in the meantime is not missed
      Continue(s, w, Released(o.address, o.key, o.id, o.nonce))
    case CheckQueueLock(w, c) =>
      var o := s.work[w];
      if Gated(s, o.address) then Finish(s, w)
      else Continue(s, w, Cleared(o.address, o.key, o.id, o.nonce, c))
    case CommitTransfer(w) =>
      var o := s.work[w];
      // a transaction that is in the queue already fails the insert, and the session with it
      if Taken(s, o) then Finish(s, w)
      else
        Finish(s, w).(tables := s.tables.(reservations := WithoutId(s.tables.reservations, o.id)),
                      queue := s.queue + [TransferRow(o)])
    case Abort(w) => Finish(s, w)
    case SetLock(k, f) => s.(locks := Locks.Set(s.locks, k, f))
    case ResetLock(k, f) => s.(locks := Locks.Reset(s.locks, k, f))
    case ClearResend(w, a, n, c) =>
      if Gated(s, a) then s else s.(resends := s.resends[w := Resend(a, n, c)])
    case CommitResend(w) => s.(queue := Added(s.queue, ResendRow(s.resends[w])), resends := s.resends - {w})
    case AbortResend(w) => s.(resends := s.resends - {w})
    case ShiftRow(a, n, c) => s.(queue := Added(s.queue, QueueRow(a, n, c, ByShift)))
  }

  predicate Gated(s: World, a: Address) {
    Locks.CheckAggregate(s.locks, s.chain, Locks.QUEUE, a) != {}
  }

  // The hash is unique in the queue, and equal for equal sender, nonce and content.
  predicate InQueue(queue: seq<QueueRow>, sender: Address, nonce: nat, content: Content) {
    exists row :: row in queue && row.sender == sender && row.nonce == nonce && row.content == content
  }

  function Added(queue: seq<QueueRow>, row: QueueRow): seq<QueueRow> {
    if InQueue(queue, row.sender, row.nonce, row.content) then queue else queue + [row]
  }

  function TransferRow(o: Work): QueueRow
    requires o.Cleared?
  {
    QueueRow(o.address, o.nonce, o.content, ByTransfer(o.key))
  }

  function ResendRow(r: Resend): QueueRow {
    QueueRow(r.address, r.nonce, r.content, ByResend)
  }

  // The transfer's transaction is in the queue already.
  predicate Taken(s: World, o: Work)
    requires o.Cleared?
  {
    InQueue(s.queue, o.address, o.nonce, o.content)
  }

  // ----- runs -----

  ghost predicate Runs(s: World, steps: seq<Step>)
    decreases |steps|
  {
    steps == [] || (Enabled(s, steps[0]) && Runs(Apply(s, steps[0]), steps[1..]))
  }

  ghost function After(s: World, steps: seq<Step>): World
    requires Runs(s, steps)
    decreases |steps|
  {
    if steps == [] then s else After(Apply(s, steps[0]), steps[1..])
  }

  // The tasks of one task chain run one after the other, so no session opens on an
  // address and key that another open session is working on.
  predicate KeyExclusive(s: World, step: Step) {
    (step.BeginReserve? || step.BeginTransfer?) ==>
      forall w | w in s.work :: !(s.work[w].address == step.address && s.work[w].key == step.key)
  }

  ghost predicate ExclusiveRun(s: World, steps: seq<Step>)
    requires Runs(s, steps)
    decreases |steps|
  {
    steps != [] ==> KeyExclusive(s, steps[0]) && ExclusiveRun(Apply(s, steps[0]), steps[1..])
  }

  // ----- accounting for nonces -----

  datatype Slot = Slot(address: Address, nonce: nat)

  function Reserved(rows: seq<Reservation>): multiset<Slot> {
    if rows == [] then multiset{} else multiset{Slot(rows[0].address, rows[0].nonce)} + Reserved(rows[1..])
  }

  function Spent(queue: seq<QueueRow>): multiset<Slot> {
    if queue == [] then multiset{}
    else
      var row := queue[|queue| - 1];
      Spent(queue[..|queue| - 1]) + if row.origin.ByTransfer? then multiset{Slot(row.sender, row.nonce)} else multiset{}
  }

  // In how many places a nonce of an address is: outstanding reservations and queued transfers.
  function Copies(s: World, slot: Slot): nat {
    Reserved(s.tables.reservations)[slot] + Spent(s.queue)[slot]
  }

  // The counter an address starts from; one that has none starts at 0.
  function Base(initial: map<Address, nat>, a: Address): nat {
    if a in initial then initial[a] else 0
  }

  // The counter has passed this nonce.
  predicate Issued(s: World, initial: map<Address, nat>, slot: Slot) {
    slot.address in s.tables.counters && Base(initial, slot.address) <= slot.nonce < s.tables.counters[slot.address]
  }

  // Every issued nonce is in exactly one place, and no other nonce is in any.
  ghost predicate Accounted(s: World, initial: map<Address, nat>) {
    forall slot: Slot :: Copies(s, slot) == if Issued(s, initial, slot) then 1 else 0
  }

  // ----- the invariant -----

  ghost predicate DistinctIds(rows: seq<Reservation>) {
    rows != [] ==> (forall row | row in rows[1..] :: row.id != rows[0].id) && DistinctIds(rows[1..])
  }

  ghost predicate RowsSound(t: Tables) {
    && (forall row | row in t.reservations :: row.id < t.nextId)
    && DistinctIds(t.reservations)
    && (forall r, q | r in t.reservations && q in t.reservations && r != q ::
          !(r.address == q.address && r.key == q.key))
  }

  // What an open session may rely on in the committed tables.
  ghost predicate WorkSound(t: Tables, o: Work) {
    match o
    case ReservationRead(a, k, id, n) => Reservation(id, a, k, n) in t.reservations
    case Released(a, k, id, n) => Reservation(id, a, k, n) in t.reservations
    case Cleared(a, k, id, n, _) => Reservation(id, a, k, n) in t.reservations
    case Holding(a, k, n) => n == Upcoming(t, a, 0) && Find(t.reservations, a, k).None?
    case CounterSeen(a, k) => a in t.counters && Find(t.reservations, a, k).None?
    case _ => Find(t.reservations, o.address, o.key).None?
  }

  // Two open sessions work on different keys and never hold the same counter row.
  ghost predicate Apart(o: Work, p: Work) {
    && !(o.address == p.address && o.key == p.key)
    && !(o.Holding? && p.Holding? && o.address == p.address)
  }

  ghost predicate CountersSound(t: Tables, initial: map<Address, nat>) {
    && (forall a | a in t.counters :: Base(initial, a) <= t.counters[a])
    && (forall a | a in initial :: a in t.counters)
  }

  ghost predicate SessionsSound(t: Tables, work: map<Worker, Work>) {
    forall w | w in work :: WorkSound(t, work[w])
  }

  ghost predicate SessionsApart(work: map<Worker, Work>) {
    forall w, v | w in work && v in work && w != v :: Apart(work[w], work[v])
  }

  ghost predicate Invariant(s: World, initial: map<Address, nat>) {
    && Accounted(s, initial)
    && RowsSound(s.tables)
    && CountersSound(s.tables, initial)
    && SessionsSound(s.tables, s.work)
    && SessionsApart(s.work)
  }

  // Nothing reserved, queued or open yet; the counters are where the accounts were created.
  ghost predicate Fresh(s: World, initial: map<Address, nat>) {
    s.tables.counters == initial && s.tables.reservations == [] && s.queue == [] && s.work == map[]
  }

  lemma FreshSatisfiesInvariant(s: World, initial: map<Address, nat>)
    requires Fresh(s, initial)
    ensures Invariant(s, initial) && LooseInvariant(s, initial)
  {
  }

  // ----- slots under appending and deleting -----

  lemma {:induction false} ReservedAppend(rows: seq<Reservation>, row: Reservation)
    ensures Reserved(rows + [row]) == Reserved(rows) + multiset{Slot(row.address, row.nonce)}
  {
    if rows != [] {
      ReservedAppend(rows[1..], row);
      assert (rows + [row])[1..] == rows[1..] + [row];
    } else {
      assert ([row])[1..] == [];
    }
  }

  lemma SpentAppend(queue: seq<QueueRow>, row: QueueRow)
    ensures Spent(queue + [row]) ==
            Spent(queue) + if row.origin.ByTransfer? then multiset{Slot(row.sender, row.nonce)} else multiset{}
  {
    assert (queue + [row])[..|queue|] == queue;
  }

  lemma SpentAdded(queue: seq<QueueRow>, row: QueueRow)
    requires !row.origin.ByTransfer?
    ensures Spent(Added(queue, row)) == Spent(queue)
  {
    SpentAppend(queue, row);
  }

  lemma {:induction false} WithoutAbsent(rows: seq<Reservation>, id: nat)
    requires forall row | row in rows :: row.id != id
    ensures WithoutId(rows, id) == rows
  {
    if rows == [] {
    } else {
      WithoutAbsent(rows[1..], id);
    }
  }

  lemma {:induction false} DistinctIdsAppend(rows: seq<Reservation>, row: Reservation)
    requires DistinctIds(rows) && forall other | other in rows :: other.id != row.id
    ensures DistinctIds(rows + [row])
  {
    if rows == [] {
    } else {
      DistinctIdsAppend(rows[1..], row);
      assert (rows + [row])[1..] == rows[1..] + [row];
    }
  }

  lemma {:induction false} ReservedWithout(rows: seq<Reservation>, row: Reservation)
    requires row in rows && DistinctIds(rows)
    ensures Reserved(rows) == Reserved(WithoutId(rows, row.id)) + multiset{Slot(row.address, row.nonce)}
  {
    var rest := rows[1..];
    if rows[0].id == row.id {
      assert rows[0] == row;
      WithoutAbsent(rest, row.id);
    } else {
      ReservedWithout(rest, row);
      var kept := WithoutId(rest, row.id);
      assert ([rows[0]] + kept)[1..] == kept;
    }
  }

  lemma {:induction false} IdsTellRowsApart(rows: seq<Reservation>, r: Reservation, q: Reservation)
    requires DistinctIds(rows) && r in rows && q in rows && r.id == q.id
    ensures r == q
  {
    if r == rows[0] || q == rows[0] {
    } else {
      IdsTellRowsApart(rows[1..], r, q);
    }
  }

  // ----- one committed step is one step of the sequential tables -----

  /** Committing a reservation changes the committed tables exactly as one uninterrupted call
      of Reserve would at that moment, whatever ran between the session's own steps. */
  lemma CommitReserveIsAtomic(s: World, initial: map<Address, nat>, w: Worker)
    requires Invariant(s, initial) && Enabled(s, CommitReserve(w))
    ensures var o := s.work[w];
            (Apply(s, CommitReserve(w)).tables, Done(o.key, o.nonce)) == Reserve(s.tables, o.address, o.key)
  {
    assert WorkSound(s.tables, s.work[w]);
  }

  /** Committing a transfer changes the reservations exactly as one uninterrupted call of
      Release would at that moment, and queues one row with the nonce that call returns, or
      changes nothing if the very transaction is in the queue. */
  lemma CommitTransferIsAtomic(s: World, initial: map<Address, nat>, w: Worker)
    requires Invariant(s, initial) && Enabled(s, CommitTransfer(w))
    ensures var o := s.work[w];
            var after := Apply(s, CommitTransfer(w));
            if Taken(s, o) then after.tables == s.tables && after.queue == s.queue
            else
              && (after.tables, Done(o.key, o.nonce)) == Release(s.tables, o.address, o.key)
              && after.queue == s.queue + [TransferRow(o)]
  {
    var o := s.work[w];
    assert WorkSound(s.tables, o);
    var row := Reservation(o.id, o.address, o.key, o.nonce);
    var found := Find(s.tables.reservations, o.address, o.key);
    assert found == Some(row);
  }

  /** A transfer past its lock check goes through exactly if no row of the queue has its sender,
      nonce and content. */
  lemma CommitGoesThroughExactly(s: World, w: Worker)
    requires Enabled(s, CommitTransfer(w))
    ensures var o := s.work[w];
            Apply(s, CommitTransfer(w)).queue == s.queue + [QueueRow(o.address, o.nonce, o.content, ByTransfer(o.key))]
            <==> forall row | row in s.queue ::
                   !(row.sender == o.address && row.nonce == o.nonce && row.content == o.content)
  {
    assert |s.queue + [TransferRow(s.work[w])]| != |s.queue|;
  }

  /** A session that is given up leaves nothing behind. */
  lemma AbortLeavesNothing(s: World, w: Worker)
    requires w in s.work
    ensures Apply(s, Abort(w)) == World(s.tables, s.queue, s.chain, s.locks, s.work - {w}, s.resends)
    ensures w in s.resends ==>
              Apply(s, AbortResend(w)) == World(s.tables, s.queue, s.chain, s.locks, s.work, s.resends - {w})
  {
  }

  /** A resend that finds no lock adds its row, if it is new, and a shift adds its row whatever the
      lock. */
  lemma ResendAndShiftAddRows(s: World, w: Worker, a: Address, n: nat, c: Content)
    requires w !in s.resends && forall row | row in s.queue :: !(row.sender == a && row.nonce == n && row.content == c)
    ensures !Gated(s, a) ==>
              var cleared := Apply(s, ClearResend(w, a, n, c));
              && Enabled(cleared, CommitResend(w))
              && Apply(cleared, CommitResend(w)).queue == s.queue + [QueueRow(a, n, c, ByResend)]
    ensures Apply(s, ShiftRow(a, n, c)).queue == s.queue + [QueueRow(a, n, c, ByShift)]
  {
  }

  /** Setting the QUEUE bit of an address shuts the gate for it, and resetting it opens the gate if
      the global row does not shut it. */
  lemma LockStepsMoveTheGate(s: World, a: Address)
    requires a != ZERO_ADDRESS
    ensures var own, global := Locks.Key(s.chain, a), Locks.Key(s.chain, ZERO_ADDRESS);
            && Gated(Apply(s, SetLock(own, Locks.QUEUE)), a)
            && (Gated(Apply(s, ResetLock(own, Locks.QUEUE)), a) <==>
                  global in s.locks && Locks.QUEUE <= s.locks[global])
  {
    var own := Locks.Key(s.chain, a);
    GatedExactly(Apply(s, SetLock(own, Locks.QUEUE)), a);
    GatedExactly(Apply(s, ResetLock(own, Locks.QUEUE)), a);
  }

  /** The lock check lets a transfer pass exactly if neither the global row nor the row of the
      address has the QUEUE bit. */
  lemma GatedExactly(s: World, a: Address)
    ensures Gated(s, a) <==>
            var global, own := Locks.Key(s.chain, ZERO_ADDRESS), Locks.Key(s.chain, a);
            (global in s.locks && Locks.QUEUE <= s.locks[global]) || (own in s.locks && Locks.QUEUE <= s.locks[own])
  {
    Locks.AggregateHoldsBack(s.locks, s.chain, Locks.QUEUE, a);
  }

  /** Every other step of a session leaves what is committed as it was. */
  lemma OtherStepsCommitNothing(s: World, step: Step)
    requires Enabled(s, step) && !step.CommitReserve? && !step.CommitTransfer?
    ensures Apply(s, step).tables == s.tables
    ensures !step.ShiftRow? && !step.CommitResend? ==> Apply(s, step).queue == s.queue
  {
  }

  // ----- each step keeps the invariant -----

  lemma CopiesAfterReserve(s: World, w: Worker, slot: Slot)
    requires Enabled(s, CommitReserve(w))
    ensures Copies(Apply(s, CommitReserve(w)), slot) ==
            Copies(s, slot) + if slot == Slot(s.work[w].address, s.work[w].nonce) then 1 else 0
  {
    var o := s.work[w];
    ReservedAppend(s.tables.reservations, Reservation(s.tables.nextId, o.address, o.key, o.nonce));
  }

  lemma AccountedAfterReserve(s: World, initial: map<Address, nat>, w: Worker)
    requires Accounted(s, initial) && CountersSound(s.tables, initial) && Enabled(s, CommitReserve(w))
    requires s.work[w].nonce == Upcoming(s.tables, s.work[w].address, 0)
    ensures Accounted(Apply(s, CommitReserve(w)), initial)
  {
    var after := Apply(s, CommitReserve(w));
    forall slot: Slot ensures Copies(after, slot) == if Issued(after, initial, slot) then 1 else 0 {
      assert Copies(s, slot) == if Issued(s, initial, slot) then 1 else 0;
      CopiesAfterReserve(s, w, slot);
    }
  }

  lemma CommitReserveKeepsInvariant(s: World, initial: map<Address, nat>, w: Worker)
    requires Invariant(s, initial) && Enabled(s, CommitReserve(w))
    ensures Invariant(Apply(s, CommitReserve(w)), initial)
  {
    var after := Apply(s, CommitReserve(w));
    var o := s.work[w];
    assert WorkSound(s.tables, o);
    AccountedAfterReserve(s, initial, w);
    DistinctIdsAppend(s.tables.reservations, Reservation(s.tables.nextId, o.address, o.key, o.nonce));
    forall v | v in after.work ensures WorkSound(after.tables, after.work[v]) {
      assert WorkSound(s.tables, s.work[v]) && Apart(o, s.work[v]);
    }
  }

  // Moving a nonce from the reservations to the queue leaves it in one place, if the
  // reservation is still there to be deleted.
  lemma CopiesAfterTransfer(s: World, w: Worker, slot: Slot)
    requires DistinctIds(s.tables.reservations) && Enabled(s, CommitTransfer(w))
    requires var o := s.work[w]; Reservation(o.id, o.address, o.key, o.nonce) in s.tables.reservations
    ensures Copies(Apply(s, CommitTransfer(w)), slot) == Copies(s, slot)
  {
    var o := s.work[w];
    ReservedWithout(s.tables.reservations, Reservation(o.id, o.address, o.key, o.nonce));
    SpentAppend(s.queue, TransferRow(o));
  }

  lemma AccountedAfterTransfer(s: World, initial: map<Address, nat>, w: Worker)
    requires Accounted(s, initial) && DistinctIds(s.tables.reservations) && Enabled(s, CommitTransfer(w))
    requires var o := s.work[w]; Reservation(o.id, o.address, o.key, o.nonce) in s.tables.reservations
    ensures Accounted(Apply(s, CommitTransfer(w)), initial)
    ensures DistinctIds(Apply(s, CommitTransfer(w)).tables.reservations)
  {
    var after := Apply(s, CommitTransfer(w));
    WithoutKeepsDistinct(s.tables.reservations, s.work[w].id);
    forall slot: Slot ensures Copies(after, slot) == if Issued(after, initial, slot) then 1 else 0 {
      assert Copies(s, slot) == if Issued(s, initial, slot) then 1 else 0;
      CopiesAfterTransfer(s, w, slot);
    }
  }

  lemma WorkSoundAfterTransfer(t: Tables, o: Work, p: Work)
    requires RowsSound(t) && WorkSound(t, o) && WorkSound(t, p) && o.Cleared? && Apart(o, p)
    ensures WorkSound(t.(reservations := WithoutId(t.reservations, o.id)), p)
  {
    if p.ReservationRead? || p.Released? || p.Cleared? {
      var row := Reservation(o.id, o.address, o.key, o.nonce);
      var other := Reservation(p.id, p.address, p.key, p.nonce);
      if other.id == row.id {
        IdsTellRowsApart(t.reservations, row, other);
      }
    }
  }

  lemma CommitTransferKeepsInvariant(s: World, initial: map<Address, nat>, w: Worker)
    requires Invariant(s, initial) && Enabled(s, CommitTransfer(w))
    ensures Invariant(Apply(s, CommitTransfer(w)), initial)
  {
    var after := Apply(s, CommitTransfer(w));
    var o := s.work[w];
    assert WorkSound(s.tables, o);
    AccountedAfterTransfer(s, initial, w);
    forall v | v in after.work ensures WorkSound(after.tables, after.work[v]) {
      assert WorkSound(s.tables, s.work[v]) && Apart(o, s.work[v]);
      WorkSoundAfterTransfer(s.tables, o, s.work[v]);
    }
  }

  // What the session of the worker is after the step, if it is still open.
  lemma SessionAfterStep(s: World, step: Step, w: Worker)
    requires Enabled(s, step) && SessionsSound(s.tables, s.work)
    requires !step.CommitReserve? && !step.CommitTransfer?
    requires w in Apply(s, step).work
    ensures WorkSound(s.tables, Apply(s, step).work[w])
    ensures w in s.work ==>
              Apply(s, step).work[w].address == s.work[w].address && Apply(s, step).work[w].key == s.work[w].key
  {
    if w in s.work {
      assert WorkSound(s.tables, s.work[w]);
    }
  }

  lemma ApartAfterStep(s: World, step: Step)
    requires Enabled(s, step) && SessionsApart(s.work) && KeyExclusive(s, step)
    requires !step.CommitReserve? && !step.CommitTransfer?
    ensures SessionsApart(Apply(s, step).work)
  {
    var work := Apply(s, step).work;
    forall w, v | w in work && v in work && w != v ensures Apart(work[w], work[v]) {
      assert w in s.work && v in s.work ==> Apart(s.work[w], s.work[v]);
    }
  }

  lemma SessionStepKeepsInvariant(s: World, initial: map<Address, nat>, step: Step)
    requires Invariant(s, initial) && Enabled(s, step) && KeyExclusive(s, step)
    requires !step.CommitReserve? && !step.CommitTransfer? && !step.ShiftRow? && !step.CommitResend?
    ensures Invariant(Apply(s, step), initial)
  {
    var after := Apply(s, step);
    OtherStepsCommitNothing(s, step);
    ApartAfterStep(s, step);
    forall w | w in after.work ensures WorkSound(after.tables, after.work[w]) {
      SessionAfterStep(s, step, w);
    }
    SameAccount(s, after, initial);
  }

  lemma SameAccount(s: World, t: World, initial: map<Address, nat>)
    requires Accounted(s, initial) && s.tables == t.tables && Spent(s.queue) == Spent(t.queue)
    ensures Accounted(t, initial)
  {
    forall slot: Slot ensures Copies(t, slot) == if Issued(t, initial, slot) then 1 else 0 {
      assert Copies(s, slot) == if Issued(s, initial, slot) then 1 else 0;
    }
  }

  lemma StepKeepsInvariant(s: World, initial: map<Address, nat>, step: Step)
    requires Invariant(s, initial) && Enabled(s, step) && KeyExclusive(s, step)
    ensures Invariant(Apply(s, step), initial)
  {
    match step
    case CommitReserve(w) => CommitReserveKeepsInvariant(s, initial, w);
    case CommitTransfer(w) => CommitTransferKeepsInvariant(s, initial, w);
    case ShiftRow(a, n, c) =>
      SpentAdded(s.queue, QueueRow(a, n, c, ByShift));
      SameAccount(s, Apply(s, step), initial);
    case CommitResend(w) =>
      SpentAdded(s.queue, ResendRow(s.resends[w]));
      SameAccount(s, Apply(s, step), initial);
    case _ => SessionStepKeepsInvariant(s, initial, step);
  }

  lemma {:induction false} RunKeepsInvariant(s: World, initial: map<Address, nat>, steps: seq<Step>)
    requires Invariant(s, initial) && Runs(s, steps) && ExclusiveRun(s, steps)
    ensures Invariant(After(s, steps), initial)
    decreases |steps|
  {
    if steps == [] {
    } else {
      StepKeepsInvariant(s, initial, steps[0]);
      RunKeepsInvariant(Apply(s, steps[0]), initial, steps[1..]);
    }
  }

  /** Over every interleaving of reservations, transfers, aborts, resends, lock changes and nonce
      shifts, the nonces of an address that are reserved or queued by a transfer are exactly the range
      from its initial counter up to its counter, each in one place and once. */
  lemma NoncesAccountedFor(s: World, initial: map<Address, nat>, steps: seq<Step>)
    requires s.tables.counters == initial && s.tables.reservations == [] && s.queue == [] && s.work == map[]
    requires Runs(s, steps) && ExclusiveRun(s, steps)
    ensures Accounted(After(s, steps), initial)
  {
    FreshSatisfiesInvariant(s, initial);
    RunKeepsInvariant(s, initial, steps);
  }

  // ----- row locks -----

  // Two sessions never hold the same reservation, deleted and not committed.
  ghost predicate DeletersApart(s: World) {
    forall w, v | w in s.work && v in s.work && w != v ::
      (s.work[w].Released? || s.work[w].Cleared?) && (s.work[v].Released? || s.work[v].Cleared?) ==>
        s.work[w].id != s.work[v].id
  }

  lemma StepKeepsDeletersApart(s: World, step: Step)
    requires DeletersApart(s) && Enabled(s, step)
    ensures DeletersApart(Apply(s, step))
  {
  }

  /** The row lock of a deleted reservation is held by one session at a time, over every run. */
  lemma {:induction false} ReservationLockIsExclusive(s: World, steps: seq<Step>)
    requires DeletersApart(s) && Runs(s, steps)
    ensures DeletersApart(After(s, steps))
    decreases |steps|
  {
    if steps == [] {
    } else {
      StepKeepsDeletersApart(s, steps[0]);
      ReservationLockIsExclusive(Apply(s, steps[0]), steps[1..]);
    }
  }

  // ----- a reserved nonce can be spent -----

  // Nothing but transfers adds rows.
  ghost predicate OnlyTransfersAdd(steps: seq<Step>) {
    forall step | step in steps :: !step.ShiftRow? && !step.CommitResend?
  }

  lemma {:induction false} QueueOfTransfers(s: World, steps: seq<Step>)
    requires Runs(s, steps) && OnlyTransfersAdd(steps)
    requires forall row | row in s.queue :: row.origin.ByTransfer?
    ensures forall row | row in After(s, steps).queue :: row.origin.ByTransfer?
    decreases |steps|
  {
    if steps == [] {
    } else {
      assert steps[0] in steps;
      if !steps[0].CommitReserve? && !steps[0].CommitTransfer? {
        OtherStepsCommitNothing(s, steps[0]);
      }
      QueueOfTransfers(Apply(s, steps[0]), steps[1..]);
    }
  }

  lemma {:induction false} SpentHas(queue: seq<QueueRow>, row: QueueRow)
    requires row in queue && row.origin.ByTransfer?
    ensures Spent(queue)[Slot(row.sender, row.nonce)] >= 1
  {
    if row == queue[|queue| - 1] {
    } else {
      SpentHas(queue[..|queue| - 1], row);
    }
  }

  /** Under exclusive keys, while only transfers add rows, a transfer that has its reserved nonce
      and is past the lock check is never refused for being queued already: its commit adds its
      row, whatever ran before. */
  lemma ReservedNonceIsNeverRefused(s: World, initial: map<Address, nat>, steps: seq<Step>, w: Worker)
    requires s.tables.counters == initial && s.tables.reservations == [] && s.queue == [] && s.work == map[]
    requires Runs(s, steps) && ExclusiveRun(s, steps)
    requires forall step | step in steps :: !step.ShiftRow? && !step.CommitResend?
    requires Enabled(After(s, steps), CommitTransfer(w))
    ensures var t := After(s, steps);
            var o := t.work[w];
            Apply(t, CommitTransfer(w)).queue == t.queue + [QueueRow(o.address, o.nonce, o.content, ByTransfer(o.key))]
  {
    var t := After(s, steps);
    var o := t.work[w];
    FreshSatisfiesInvariant(s, initial);
    RunKeepsInvariant(s, initial, steps);
    QueueOfTransfers(s, steps);
    assert WorkSound(t.tables, o);
    ReservedHas(t.tables.reservations, Reservation(o.id, o.address, o.key, o.nonce));
    assert Copies(t, Slot(o.address, o.nonce)) <= 1;
    forall row | row in t.queue ensures !(row.sender == o.address && row.nonce == o.nonce && row.content == o.content) {
      SpentHas(t.queue, row);
    }
    CommitGoesThroughExactly(t, w);
  }

  // ----- without exclusive keys: exactly when the account still balances -----

  // A transfer commits a new transaction although its reservation is no longer there.
  predicate StaleSpend(s: World, step: Step)
    requires Enabled(s, step)
  {
    step.CommitTransfer? &&
    var o := s.work[step.worker];
    !Taken(s, o) && Reservation(o.id, o.address, o.key, o.nonce) !in s.tables.reservations
  }

  ghost predicate NeverStale(s: World, steps: seq<Step>)
    requires Runs(s, steps)
    decreases |steps|
  {
    steps != [] ==> !StaleSpend(s, steps[0]) && NeverStale(Apply(s, steps[0]), steps[1..])
  }

  ghost predicate AlwaysAccounted(s: World, initial: map<Address, nat>, steps: seq<Step>)
    requires Runs(s, steps)
    decreases |steps|
  {
    Accounted(s, initial) && (steps != [] ==> AlwaysAccounted(Apply(s, steps[0]), initial, steps[1..]))
  }

  // What every open session may rely on even when keys are shared.
  ghost predicate LooseWork(s: World, initial: map<Address, nat>, o: Work) {
    match o
    case Holding(a, _, n) => n == Upcoming(s.tables, a, 0)
    case CounterSeen(a, _) => a in s.tables.counters
    case Peeked(_, _) => true
    case CounterMissing(_, _) => true
    case _ =>
      && o.id < s.tables.nextId
      && Issued(s, initial, Slot(o.address, o.nonce))
      && forall row | row in s.tables.reservations && row.id == o.id ::
        row == Reservation(o.id, o.address, o.key, o.nonce)
  }

  ghost predicate LooseInvariant(s: World, initial: map<Address, nat>) {
    && (forall row | row in s.tables.reservations :: row.id < s.tables.nextId)
    && DistinctIds(s.tables.reservations)
    && CountersSound(s.tables, initial)
    && (forall w | w in s.work :: LooseWork(s, initial, s.work[w]))
    && (forall w, v | w in s.work && v in s.work && w != v && s.work[w].Holding? && s.work[v].Holding? ::
          s.work[w].address != s.work[v].address)
  }

  lemma {:induction false} ReservedHas(rows: seq<Reservation>, row: Reservation)
    requires row in rows
    ensures Reserved(rows)[Slot(row.address, row.nonce)] >= 1
  {
    if row == rows[0] {
    } else {
      ReservedHas(rows[1..], row);
    }
  }

  lemma {:induction false} WithoutKeepsDistinct(rows: seq<Reservation>, id: nat)
    requires DistinctIds(rows)
    ensures DistinctIds(WithoutId(rows, id))
  {
    if rows == [] {
    } else {
      WithoutKeepsDistinct(rows[1..], id);
      var kept := WithoutId(rows[1..], id);
      assert ([rows[0]] + kept)[1..] == kept;
    }
  }

  // A commit of another session leaves what an open session may rely on.
  lemma LooseWorkAfterCommit(s: World, initial: map<Address, nat>, step: Step, o: Work)
    requires LooseInvariant(s, initial) && Enabled(s, step) && (step.CommitReserve? || step.CommitTransfer?)
    requires LooseWork(s, initial, o)
    requires step.CommitReserve? && o.Holding? ==> o.address != s.work[step.worker].address
    ensures LooseWork(Apply(s, step), initial, o)
  {
    if step.CommitReserve? {
      assert LooseWork(s, initial, s.work[step.worker]);
    }
  }

  lemma LooseWorkOfReader(s: World, initial: map<Address, nat>, row: Reservation)
    requires LooseInvariant(s, initial) && Accounted(s, initial) && row in s.tables.reservations
    ensures LooseWork(s, initial, ReservationRead(row.address, row.key, row.id, row.nonce))
  {
    ReservedHas(s.tables.reservations, row);
    assert Copies(s, Slot(row.address, row.nonce)) >= 1;
    forall other | other in s.tables.reservations && other.id == row.id ensures other == row {
      IdsTellRowsApart(s.tables.reservations, row, other);
    }
  }

  // A step that commits nothing leaves a sound session sound.
  lemma LooseWorkAfterQuietStep(s: World, initial: map<Address, nat>, step: Step, w: Worker)
    requires Enabled(s, step) && !step.CommitReserve? && !step.CommitTransfer?
    requires w in s.work && LooseWork(s, initial, s.work[w]) && w in Apply(s, step).work
    ensures LooseWork(Apply(s, step), initial, Apply(s, step).work[w])
  {
    OtherStepsCommitNothing(s, step);
  }

  lemma LooseWorkOfNewcomer(s: World, initial: map<Address, nat>, step: Step, w: Worker)
    requires LooseInvariant(s, initial) && Accounted(s, initial) && Enabled(s, step)
    requires w !in s.work && w in Apply(s, step).work
    ensures LooseWork(Apply(s, step), initial, Apply(s, step).work[w])
  {
    if step.BeginTransfer? {
      LooseWorkOfReader(s, initial, Find(s.tables.reservations, step.address, step.key).value);
    }
  }

  lemma LooseWorkAfterStep(s: World, initial: map<Address, nat>, step: Step, w: Worker)
    requires LooseInvariant(s, initial) && Accounted(s, initial) && Enabled(s, step)
    requires w in Apply(s, step).work
    ensures LooseWork(Apply(s, step), initial, Apply(s, step).work[w])
  {
    if w !in s.work {
      LooseWorkOfNewcomer(s, initial, step, w);
    } else {
      assert LooseWork(s, initial, s.work[w]);
      if step.CommitReserve? || step.CommitTransfer? {
        LooseWorkAfterCommit(s, initial, step, s.work[w]);
      } else {
        LooseWorkAfterQuietStep(s, initial, step, w);
      }
    }
  }

  lemma HoldersApartAfterStep(s: World, initial: map<Address, nat>, step: Step)
    requires LooseInvariant(s, initial) && Enabled(s, step)
    ensures var work := Apply(s, step).work;
            forall w, v | w in work && v in work && w != v && work[w].Holding? && work[v].Holding? ::
              work[w].address != work[v].address
  {
  }

  lemma StepKeepsLooseInvariant(s: World, initial: map<Address, nat>, step: Step)
    requires LooseInvariant(s, initial) && Accounted(s, initial) && Enabled(s, step)
    ensures LooseInvariant(Apply(s, step), initial)
  {
    var after := Apply(s, step);
    HoldersApartAfterStep(s, initial, step);
    forall w | w in after.work ensures LooseWork(after, initial, after.work[w]) {
      LooseWorkAfterStep(s, initial, step, w);
    }
    if step.CommitReserve? {
      var o := s.work[step.worker];
      assert LooseWork(s, initial, o);
      DistinctIdsAppend(s.tables.reservations, Reservation(s.tables.nextId, o.address, o.key, o.nonce));
    } else if step.CommitTransfer? {
      WithoutKeepsDistinct(s.tables.reservations, s.work[step.worker].id);
    }
  }

  lemma StaleSpendBreaksAccount(s: World, initial: map<Address, nat>, step: Step)
    requires LooseInvariant(s, initial) && Accounted(s, initial) && Enabled(s, step) && StaleSpend(s, step)
    ensures !Accounted(Apply(s, step), initial)
  {
    var o := s.work[step.worker];
    assert LooseWork(s, initial, o);
    WithoutAbsent(s.tables.reservations, o.id);
    SpentAppend(s.queue, TransferRow(o));
    assert Copies(s, Slot(o.address, o.nonce)) == 1;
    assert Copies(Apply(s, step), Slot(o.address, o.nonce)) == 2;
  }

  lemma StepAccountedUnlessStale(s: World, initial: map<Address, nat>, step: Step)
    requires LooseInvariant(s, initial) && Accounted(s, initial) && Enabled(s, step)
    ensures Accounted(Apply(s, step), initial) <==> !StaleSpend(s, step)
  {
    if StaleSpend(s, step) {
      StaleSpendBreaksAccount(s, initial, step);
    } else if step.CommitReserve? {
      assert LooseWork(s, initial, s.work[step.worker]);
      AccountedAfterReserve(s, initial, step.worker);
    } else if step.CommitTransfer? {
      if Taken(s, s.work[step.worker]) {
        SameAccount(s, Apply(s, step), initial);
      } else {
        AccountedAfterTransfer(s, initial, step.worker);
      }
    } else {
      if step.ShiftRow? {
        SpentAdded(s.queue, QueueRow(step.address, step.nonce, step.content, ByShift));
      } else if step.CommitResend? {
        SpentAdded(s.queue, ResendRow(s.resends[step.worker]));
      }
      OtherStepsCommitNothing(s, step);
      SameAccount(s, Apply(s, step), initial);
    }
  }

  lemma {:induction false} AccountFollowsCommits(s: World, initial: map<Address, nat>, steps: seq<Step>)
    requires LooseInvariant(s, initial) && Accounted(s, initial) && Runs(s, steps)
    ensures AlwaysAccounted(s, initial, steps) <==> NeverStale(s, steps)
    decreases |steps|
  {
    if steps == [] {
    } else {
      StepAccountedUnlessStale(s, initial, steps[0]);
      if !StaleSpend(s, steps[0]) {
        StepKeepsLooseInvariant(s, initial, steps[0]);
        AccountFollowsCommits(Apply(s, steps[0]), initial, steps[1..]);
      }
    }
  }

  /** Over every interleaving at all, shared keys included, the account of nonces balances in
      every state exactly when no transfer commits after its reservation has gone. */
  lemma AccountedExactlyWhenNeverStale(s: World, initial: map<Address, nat>, steps: seq<Step>)
    requires s.tables.counters == initial && s.tables.reservations == [] && s.queue == [] && s.work == map[]
    requires Runs(s, steps)
    ensures AlwaysAccounted(s, initial, steps) <==> NeverStale(s, steps)
  {
    FreshSatisfiesInvariant(s, initial);
    AccountFollowsCommits(s, initial, steps);
  }

  lemma RunsFurther(s: World, steps: seq<Step>, step: Step)
    requires Runs(s, steps) && Enabled(After(s, steps), step)
    ensures Runs(s, steps + [step]) && After(s, steps + [step]) == Apply(After(s, steps), step)
    decreases |steps|
  {
    if steps != [] {
      RunsFurther(Apply(s, steps[0]), steps[1..], step);
      assert (steps + [step])[1..] == steps[1..] + [step];
    } else {
      assert ([step])[1..] == [];
    }
  }

  /** Exclusive keys are needed: two sessions that open on one reserved key can both read the
      reservation; the second waits to delete it until the first has committed, finds nothing
      left to delete, goes on, and one nonce is queued twice, if the two have signed different
      transactions. */
  lemma SharedKeySpendsTwice(s: World, a: Address, k: string, c: Content, d: Content) returns (steps: seq<Step>)
    requires s.work == map[] && Find(s.tables.reservations, a, k).Some? && !Gated(s, a) && c != d
    requires var n := Find(s.tables.reservations, a, k).value.nonce;
             !InQueue(s.queue, a, n, c) && !InQueue(s.queue, a, n, d)
    ensures Runs(s, steps)
    ensures var n := Find(s.tables.reservations, a, k).value.nonce;
            After(s, steps).queue == s.queue + [QueueRow(a, n, c, ByTransfer(k)), QueueRow(a, n, d, ByTransfer(k))]
  {
    var found := Find(s.tables.reservations, a, k).value;
    var read := ReservationRead(a, k, found.id, found.nonce);
    steps := [];
    steps := OneMoreStep(s, steps, BeginTransfer(0, a, k));
    steps := OneMoreStep(s, steps, BeginTransfer(1, a, k));
    assert After(s, steps).work == map[0 := read, 1 := read] && After(s, steps).queue == s.queue;
    steps := SpendRead(s, steps, 0, a, k, found.id, found.nonce, c);
    assert After(s, steps).work == map[1 := read];
    steps := SpendRead(s, steps, 1, a, k, found.id, found.nonce, d);
  }

  lemma {:induction false} ExclusiveFurther(s: World, steps: seq<Step>, step: Step)
    requires Runs(s, steps) && ExclusiveRun(s, steps) && Enabled(After(s, steps), step)
    requires KeyExclusive(After(s, steps), step)
    ensures Runs(s, steps + [step]) && ExclusiveRun(s, steps + [step])
    decreases |steps|
  {
    RunsFurther(s, steps, step);
    if steps == [] {
      assert [step][1..] == [] && [] + [step] == [step];
    } else {
      ExclusiveFurther(Apply(s, steps[0]), steps[1..], step);
      assert (steps + [step])[1..] == steps[1..] + [step];
    }
  }

  lemma OneMoreStep(s: World, steps: seq<Step>, step: Step) returns (more: seq<Step>)
    requires Runs(s, steps) && Enabled(After(s, steps), step)
    ensures Runs(s, more) && After(s, more) == Apply(After(s, steps), step)
  {
    RunsFurther(s, steps, step);
    more := steps + [step];
  }

  // A session that has read a reservation no one else has deleted without committing can run on
  // to its commit of a new transaction, whether the reservation is still there or not.
  lemma SpendRead(s: World, steps: seq<Step>, w: Worker, a: Address, k: string, id: nat, nonce: nat, c: Content)
    returns (more: seq<Step>)
    requires Runs(s, steps)
    requires var t := After(s, steps);
             && !Gated(t, a) && !InQueue(t.queue, a, nonce, c)
             && w in t.work && t.work[w] == ReservationRead(a, k, id, nonce) && ReservationFree(t, id)
    ensures Runs(s, more)
    ensures var t := After(s, steps);
            After(s, more) == t.(work := t.work - {w},
                                 tables := t.tables.(reservations := WithoutId(t.tables.reservations, id)),
                                 queue := t.queue + [QueueRow(a, nonce, c, ByTransfer(k))])
  {
    var t := After(s, steps);
    more := OneMoreStep(s, steps, DeleteReservation(w));
    more := OneMoreStep(s, more, CheckQueueLock(w, c));
    assert After(s, more) == Continue(t, w, Cleared(a, k, id, nonce, c)) by {
      assert After(s, more).work == t.work[w := Cleared(a, k, id, nonce, c)];
    }
    more := OneMoreStep(s, more, CommitTransfer(w));
    assert After(s, more).work == t.work - {w};
  }

  // ----- the QUEUE lock over interleavings -----

  // A new transfer or resend of the address has passed its lock check and not yet committed.
  predicate InFlight(s: World, a: Address) {
    (exists w :: w in s.work && s.work[w].Cleared? && s.work[w].address == a && !Taken(s, s.work[w])) ||
    (exists w ::
       && w in s.resends && s.resends[w].address == a
       && !InQueue(s.queue, a, s.resends[w].nonce, s.resends[w].content))
  }

  // No step takes the QUEUE bit off the global row or the row of the address.
  predicate NeverUnlocks(steps: seq<Step>, chain: string, a: Address) {
    forall step | step in steps && step.ResetLock? ::
      step.lockKey == Locks.Key(chain, ZERO_ADDRESS) || step.lockKey == Locks.Key(chain, a) ==>
        step.flags !! Locks.QUEUE
  }

  // The rows of the address that anything but a shift has put in the queue.
  function TaskRows(queue: seq<QueueRow>, a: Address): seq<QueueRow> {
    if queue == [] then []
    else
      var row := queue[|queue| - 1];
      TaskRows(queue[..|queue| - 1], a) + if row.sender == a && !row.origin.ByShift? then [row] else []
  }

  lemma TaskRowsAppend(queue: seq<QueueRow>, row: QueueRow, a: Address)
    ensures TaskRows(queue + [row], a) ==
            TaskRows(queue, a) + if row.sender == a && !row.origin.ByShift? then [row] else []
  {
    assert (queue + [row])[..|queue|] == queue;
  }

  lemma TaskRowsAdded(queue: seq<QueueRow>, row: QueueRow, a: Address)
    requires row.sender != a || row.origin.ByShift? || InQueue(queue, row.sender, row.nonce, row.content)
    ensures TaskRows(Added(queue, row), a) == TaskRows(queue, a)
  {
    TaskRowsAppend(queue, row, a);
  }

  lemma GateStaysShut(s: World, step: Step, a: Address)
    requires Enabled(s, step) && Gated(s, a) && NeverUnlocks([step], s.chain, a)
    ensures Gated(Apply(s, step), a) && Apply(s, step).chain == s.chain
  {
    Locks.AggregateHoldsBack(s.locks, s.chain, Locks.QUEUE, a);
    Locks.AggregateHoldsBack(Apply(s, step).locks, s.chain, Locks.QUEUE, a);
    assert step in [step];
  }

  // What is in the queue stays there.
  lemma QueueOnlyGrows(s: World, step: Step, sender: Address, nonce: nat, content: Content)
    requires Enabled(s, step) && InQueue(s.queue, sender, nonce, content)
    ensures InQueue(Apply(s, step).queue, sender, nonce, content)
  {
    var row :| row in s.queue && row.sender == sender && row.nonce == nonce && row.content == content;
    assert row in Apply(s, step).queue;
  }

  lemma NothingTakesOff(s: World, step: Step, a: Address)
    requires Enabled(s, step) && Gated(s, a) && !InFlight(s, a)
    ensures !InFlight(Apply(s, step), a)
  {
    var after := Apply(s, step);
    forall w | w in after.work && after.work[w].Cleared? && after.work[w].address == a
      ensures Taken(after, after.work[w])
    {
      assert w in s.work && s.work[w] == after.work[w];
      QueueOnlyGrows(s, step, a, s.work[w].nonce, s.work[w].content);
    }
    forall w | w in after.resends && after.resends[w].address == a
      ensures InQueue(after.queue, a, after.resends[w].nonce, after.resends[w].content)
    {
      assert w in s.resends && s.resends[w] == after.resends[w];
      QueueOnlyGrows(s, step, a, s.resends[w].nonce, s.resends[w].content);
    }
  }

  lemma ShutGateStep(s: World, step: Step, a: Address)
    requires Enabled(s, step) && !InFlight(s, a)
    ensures TaskRows(Apply(s, step).queue, a) == TaskRows(s.queue, a)
  {
    if step.CommitTransfer? {
      var o := s.work[step.worker];
      assert o.address != a || Taken(s, o);
      TaskRowsAdded(s.queue, TransferRow(o), a);
    } else if step.ShiftRow? {
      TaskRowsAdded(s.queue, QueueRow(step.address, step.nonce, step.content, ByShift), a);
    } else if step.CommitResend? {
      TaskRowsAdded(s.queue, ResendRow(s.resends[step.worker]), a);
    } else if !step.CommitReserve? {
      OtherStepsCommitNothing(s, step);
    }
  }

  lemma {:induction false} ShutGateHolds(s: World, steps: seq<Step>, a: Address)
    requires Gated(s, a) && !InFlight(s, a) && Runs(s, steps) && NeverUnlocks(steps, s.chain, a)
    ensures TaskRows(After(s, steps).queue, a) == TaskRows(s.queue, a)
    decreases |steps|
  {
    if steps == [] {
    } else {
      GateStaysShut(s, steps[0], a);
      NothingTakesOff(s, steps[0], a);
      ShutGateStep(s, steps[0], a);
      ShutGateHolds(Apply(s, steps[0]), steps[1..], a);
    }
  }

  // What is in flight can be committed whatever the lock.
  lemma InFlightAddsRow(s: World, a: Address) returns (steps: seq<Step>)
    requires InFlight(s, a)
    ensures Runs(s, steps) && NeverUnlocks(steps, s.chain, a)
    ensures TaskRows(After(s, steps).queue, a) != TaskRows(s.queue, a)
  {
    assert Runs(s, []) && After(s, []) == s;
    if w :| w in s.work && s.work[w].Cleared? && s.work[w].address == a && !Taken(s, s.work[w]) {
      steps := [CommitTransfer(w)];
      TaskRowsAppend(s.queue, TransferRow(s.work[w]), a);
    } else {
      var w :| w in s.resends && s.resends[w].address == a &&
          !InQueue(s.queue, a, s.resends[w].nonce, s.resends[w].content);
      steps := [CommitResend(w)];
      TaskRowsAppend(s.queue, ResendRow(s.resends[w]), a);
    }
    RunsFurther(s, [], steps[0]);
    assert [] + [steps[0]] == steps;
  }

  /** Once the QUEUE lock of an address is set, only shifts add rows for it until it is unlocked
      exactly if no new transfer or resend of the address was past its check when the lock was
      set. */
  lemma QueueLockHoldsExactly(s: World, a: Address)
    requires Gated(s, a)
    ensures (forall steps: seq<Step> :: Runs(s, steps) && NeverUnlocks(steps, s.chain, a) ==>
               TaskRows(After(s, steps).queue, a) == TaskRows(s.queue, a))
            <==> !InFlight(s, a)
  {
    if InFlight(s, a) {
      var steps := InFlightAddsRow(s, a);
      assert Runs(s, steps);
    } else {
      forall steps: seq<Step> | Runs(s, steps) && NeverUnlocks(steps, s.chain, a)
        ensures TaskRows(After(s, steps).queue, a) == TaskRows(s.queue, a)
      {
        ShutGateHolds(s, steps, a);
      }
    }
  }
}
