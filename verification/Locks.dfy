/** The lock table of cic-eth: one row of flag bits per chain and address. */
module Locks {
  import opened Basics

  // A flags value is the set of its bit positions: `|` is union, `&` intersection,
  // `& ~` difference, and 0 the empty set.
  type Flags = set<nat>

  const SEND: Flags := {3}
  const QUEUE: Flags := {4}

  datatype Key = Key(chain: string, address: Address)

  type Table = map<Key, Flags>

  function Mask(t: Table, k: Key): Flags {
    if k in t then t[k] else {}
  }

  // Rows with no bit left are deleted, so a stored row always has one.
  ghost predicate Valid(t: Table) {
    forall k | k in t :: t[k] != {}
  }

  function Set(t: Table, k: Key, flags: Flags): Table {
    t[k := Mask(t, k) + flags]
  }

  function Reset(t: Table, k: Key, flags: Flags): Table {
    if k !in t then t
    else if t[k] - flags == {} then t - {k}
    else t[k := t[k] - flags]
  }

  function Check(t: Table, k: Key, flags: Flags): Flags {
    if k in t && t[k] * flags == flags then t[k] * flags else {}
  }

  /** The check made before a row enters the queue: the global row and the holder's row. */
  function CheckAggregate(t: Table, chain: string, flags: Flags, address: Address): Flags {
    Check(t, Key(chain, ZERO_ADDRESS), flags) + Check(t, Key(chain, address), flags)
  }

  /** The table as a stored object, changed in place by set and reset. */
  class Store {
    var table: Table

    constructor ()
      ensures table == map[]
    {
      table := map[];
    }

    method SetFlags(k: Key, flags: Flags) returns (r: Flags)
      modifies this
      ensures table == Set(old(table), k, flags)
      ensures r == Mask(table, k)
      ensures old(Valid(table)) && flags != {} ==> Valid(table)
    {
      var row := {};
      if k in table {
        row := table[k];
      }
      row := row + flags;
      r := row;
      table := table[k := row];
    }

    method ResetFlags(k: Key, flags: Flags) returns (r: Flags)
      modifies this
      ensures table == Reset(old(table), k, flags)
      ensures r == Mask(table, k)
      ensures old(Valid(table)) ==> Valid(table)
    {
      r := {};
      if k in table {
        var row := table[k] - flags;
        if row == {} {
          table := table - {k};
        } else {
          table := table[k := row];
          r := row;
        }
      }
    }

    method CheckFlags(k: Key, flags: Flags) returns (r: Flags)
      ensures r == Check(table, k, flags)
    {
      r := {};
      if k in table && table[k] * flags == flags {
        r := table[k] * flags;
      }
    }

    method CheckBoth(chain: string, flags: Flags, address: Address) returns (r: Flags)
      ensures r == CheckAggregate(table, chain, flags, address)
    {
      r := CheckFlags(Key(chain, ZERO_ADDRESS), flags);
      var own := CheckFlags(Key(chain, address), flags);
      r := r + own;
    }
  }

  // ----- the table as a record of the calls made on it -----

  datatype Call = SetCall(key: Key, flags: Flags) | ResetCall(key: Key, flags: Flags)

  function Apply(t: Table, c: Call): Table {
    match c
    case SetCall(k, f) => Set(t, k, f)
    case ResetCall(k, f) => Reset(t, k, f)
  }

  function Run(t: Table, calls: seq<Call>): Table {
    if calls == [] then t else Apply(Run(t, calls[..|calls| - 1]), calls[|calls| - 1])
  }

  // What the last call that mentions the bit for the key did: true for a set, false for a reset.
  function LastMention(calls: seq<Call>, k: Key, bit: nat): Option<bool> {
    if calls == [] then None
    else
      var c := calls[|calls| - 1];
      if c.key == k && bit in c.flags then Some(c.SetCall?)
      else LastMention(calls[..|calls| - 1], k, bit)
  }

  // What the history says of a bit: the last call that mentions it was a set, or none does
  // and it was on at the start.
  predicate OnByHistory(t: Table, calls: seq<Call>, k: Key, bit: nat) {
    match LastMention(calls, k, bit)
    case Some(on) => on
    case None => bit in Mask(t, k)
  }

  /** The table is what the history of calls says, bit by bit, for every chain and address. */
  lemma {:induction false} HistoryDecidesBits(t: Table, calls: seq<Call>, k: Key, bit: nat)
    ensures bit in Mask(Run(t, calls), k) <==> OnByHistory(t, calls, k, bit)
  {
    if calls == [] {
    } else {
      HistoryDecidesBits(t, calls[..|calls| - 1], k, bit);
    }
  }

  /** A row exists exactly while the history leaves one of its bits on, provided no set call
      is empty; an empty set call is the only way to store a row without bits. */
  lemma {:induction false} RowExistsWhileBitOn(t: Table, calls: seq<Call>, k: Key)
    requires Valid(t)
    requires forall c | c in calls && c.SetCall? :: c.flags != {}
    ensures Valid(Run(t, calls))
    ensures k in Run(t, calls) <==> Mask(Run(t, calls), k) != {}
  {
    if calls == [] {
    } else {
      RowExistsWhileBitOn(t, calls[..|calls| - 1], k);
    }
  }

  /** A check answers with all of the flags when the history leaves every one of them on,
      and with none of them otherwise. */
  lemma CheckFollowsHistory(t: Table, calls: seq<Call>, k: Key, flags: Flags)
    ensures Check(Run(t, calls), k, flags) ==
            if forall bit | bit in flags :: OnByHistory(t, calls, k, bit) then flags else {}
  {
    var after := Run(t, calls);
    forall bit | bit in flags ensures bit in Mask(after, k) <==> OnByHistory(t, calls, k, bit) {
      HistoryDecidesBits(t, calls, k, bit);
    }
    if forall bit | bit in flags :: OnByHistory(t, calls, k, bit) {
      assert Mask(after, k) * flags == flags;
    } else {
      var bit :| bit in flags && !OnByHistory(t, calls, k, bit);
      assert bit !in Mask(after, k) * flags;
    }
  }

  /** Unlocking takes back exactly what a lock put there, down to the deletion of the row. */
  lemma UnlockUndoesLock(t: Table, k: Key, flags: Flags)
    requires Valid(t) && flags !! Mask(t, k) && flags != {}
    ensures Reset(Set(t, k, flags), k, flags) == t
  {
    var locked := Set(t, k, flags);
    assert locked[k] - flags == Mask(t, k);
  }

  /** The aggregate check holds back an address exactly when the global row or its own row
      has every flag asked for. */
  lemma AggregateHoldsBack(t: Table, chain: string, flags: Flags, address: Address)
    requires flags != {}
    ensures CheckAggregate(t, chain, flags, address) ==
            if flags <= Mask(t, Key(chain, ZERO_ADDRESS)) || flags <= Mask(t, Key(chain, address)) then flags else {}
  {
    forall k: Key ensures Check(t, k, flags) == if flags <= Mask(t, k) then flags else {} {
      assert Mask(t, k) * flags == flags <==> flags <= Mask(t, k);
    }
  }
}
