/** Nonce counters and nonce reservations, seen by one database session at a time.
    How sessions interleave is the subject of module Protocol. */
module Nonces {
  import opened Basics

  // A row of nonce_task_reservation; the id is its primary key.
  datatype Reservation = Reservation(id: nat, address: Address, key: string, nonce: nat)

  // The two tables: the counter per address, and the outstanding reservations.
  datatype Tables = Tables(counters: map<Address, nat>, reservations: seq<Reservation>, nextId: nat)

  datatype Outcome =
    | Done(key: string, nonce: nat)
    | CounterExists          // init on an address that has a counter
    | KeyActive              // next during an active reservation of the key
    | KeyUnknown             // release of a key that is not reserved

  // The first row for the address and key.
  function Find(rows: seq<Reservation>, a: Address, k: string): (r: Option<Reservation>)
    ensures r.Some? ==> r.value in rows && r.value.address == a && r.value.key == k
    ensures r.None? ==> forall row | row in rows :: !(row.address == a && row.key == k)
  {
    if rows == [] then None
    else if rows[0].address == a && rows[0].key == k then Some(rows[0])
    else Find(rows[1..], a, k)
  }

  function WithoutId(rows: seq<Reservation>, id: nat): (r: seq<Reservation>)
    ensures forall row :: row in r <==> row in rows && row.id != id
  {
    if rows == [] then []
    else if rows[0].id == id then WithoutId(rows[1..], id)
    else [rows[0]] + WithoutId(rows[1..], id)
  }

  // The nonce the next increment hands out.
  function Upcoming(t: Tables, a: Address, initial: nat): nat {
    if a in t.counters then t.counters[a] else initial
  }

  // Hand out one nonce for the address and remember it under the key.
  function Reserve(t: Tables, a: Address, k: string): (Tables, Outcome) {
    if Find(t.reservations, a, k).Some? then (t, KeyActive)
    else
      var nonce := Upcoming(t, a, 0);
      (Tables(t.counters[a := nonce + 1],
              t.reservations + [Reservation(t.nextId, a, k, nonce)],
              t.nextId + 1),
       Done(k, nonce))
  }

  // Take the reserved nonce back out, to be spent by the caller.
  function Release(t: Tables, a: Address, k: string): (Tables, Outcome) {
    match Find(t.reservations, a, k)
    case None => (t, KeyUnknown)
    case Some(row) => (t.(reservations := WithoutId(t.reservations, row.id)), Done(row.key, row.nonce))
  }

  /** The tables as one session changes them. */
  class Session {
    var counters: map<Address, nat>
    var reservations: seq<Reservation>
    var nextId: nat

    function State(): Tables
      reads this
    {
      Tables(counters, reservations, nextId)
    }

    constructor (t: Tables)
      ensures State() == t
    {
      counters := t.counters;
      reservations := t.reservations;
      nextId := t.nextId;
    }

    method Init(a: Address, nonce: nat) returns (r: Outcome)
      modifies this`counters
      ensures a in old(counters) ==> r == CounterExists && State() == old(State())
      ensures a !in old(counters) ==>
              r == Done("", nonce) && State() == old(State()).(counters := old(counters)[a := nonce])
    {
      if a in counters {
        return CounterExists;
      }
      counters := counters[a := nonce];
      r := Done("", nonce);
    }

    // Lock the counter row, read it, add one.
    method Increment(a: Address) returns (nonce: nat)
      requires a in counters
      modifies this`counters
      ensures nonce == old(counters)[a]
      ensures counters == old(counters)[a := nonce + 1]
    {
      nonce := counters[a];
      counters := counters[a := counters[a] + 1];
    }

    method NextNonce(a: Address, initial: nat) returns (nonce: nat)
      modifies this`counters
      ensures nonce == Upcoming(old(State()), a, initial)
      ensures nonce == if a in old(counters) then old(counters)[a] else initial
      ensures counters == old(counters)[a := nonce + 1]
    {
      if a !in counters {
        counters := counters[a := initial];
      }
      nonce := Increment(a);
    }

    method Next(a: Address, k: string) returns (r: Outcome)
      modifies this
      ensures (State(), r) == Reserve(old(State()), a, k)
      ensures r == KeyActive <==> exists row :: row in old(reservations) && row.address == a && row.key == k
      ensures r == KeyActive ==> State() == old(State())
      ensures r != KeyActive ==>
                var nonce := if a in old(counters) then old(counters)[a] else 0;
                && r == Done(k, nonce)
                && counters == old(counters)[a := nonce + 1]
                && reservations == old(reservations) + [Reservation(old(nextId), a, k, nonce)]
    {
      var o := Find(reservations, a, k);
      if o != None {
        return KeyActive;
      }
      var nonce := NextNonce(a, 0);
      reservations := reservations + [Reservation(nextId, a, k, nonce)];
      nextId := nextId + 1;
      r := Done(k, nonce);
    }

    method ReleaseKey(a: Address, k: string) returns (r: Outcome)
      modifies this`reservations
      ensures (State(), r) == Release(old(State()), a, k)
      ensures r == KeyUnknown <==> forall row | row in old(reservations) :: !(row.address == a && row.key == k)
      ensures r != KeyUnknown ==>
                exists row ::
                  && row in old(reservations) && row.address == a && row.key == k && r == Done(k, row.nonce)
                  && forall other :: other in reservations <==> other in old(reservations) && other.id != row.id
    {
      var o := Find(reservations, a, k);
      if o == None {
        return KeyUnknown;
      }
      r := Done(o.value.key, o.value.nonce);
      reservations := WithoutId(reservations, o.value.id);
    }
  }

  /** Reserving and releasing a fresh key gives back the very nonce that was reserved; all
      that remains of the pair is the counter, one higher. */
  lemma ReleaseGivesReservedNonce(t: Tables, a: Address, k: string)
    requires Find(t.reservations, a, k).None?
    requires forall row | row in t.reservations :: row.id < t.nextId
    ensures var (reserved, r) := Reserve(t, a, k);
            Release(reserved, a, k) == (Tables(t.counters[a := Upcoming(t, a, 0) + 1], t.reservations, t.nextId + 1), r)
  {
    ReleaseOfLast(Reserve(t, a, k).0, t.reservations, Reservation(t.nextId, a, k, Upcoming(t, a, 0)));
  }

  lemma ReleaseOfLast(t: Tables, rows: seq<Reservation>, last: Reservation)
    requires t.reservations == rows + [last] && Find(rows, last.address, last.key).None?
    requires forall row | row in rows :: row.id != last.id
    ensures Release(t, last.address, last.key) == (t.(reservations := rows), Done(last.key, last.nonce))
  {
    FindAppended(rows, last);
    RemoveAppended(rows, last);
  }

  lemma {:induction false} FindAppended(rows: seq<Reservation>, row: Reservation)
    requires Find(rows, row.address, row.key).None?
    ensures Find(rows + [row], row.address, row.key) == Some(row)
  {
    if rows == [] {
    } else {
      FindAppended(rows[1..], row);
      assert (rows + [row])[1..] == rows[1..] + [row];
    }
  }

  lemma {:induction false} RemoveAppended(rows: seq<Reservation>, row: Reservation)
    requires forall other | other in rows :: other.id != row.id
    ensures WithoutId(rows + [row], row.id) == rows
  {
    if rows == [] {
      assert WithoutId([row][1..], row.id) == [];
    } else {
      RemoveAppended(rows[1..], row);
      assert (rows + [row])[1..] == rows[1..] + [row];
    }
  }
}
