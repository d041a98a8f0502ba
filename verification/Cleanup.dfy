/** The audit that closes a sender's nonce: with a final network transaction known, every
    other transaction of the nonce is closed as obsolete. */
module Cleanup {
  import opened Queue

  // An item of the audit: the id of a queue row and the status recorded for it.
  datatype Item = Item(id: nat, recorded: Status)

  function IgnoreManual(s: Status): Status {
    s - {MANUAL}
  }

  // What one item does to the current status of its row.
  function Rewritten(current: Status, v: Item, finalId: nat): Status {
    if v.id == finalId then
      if FINAL in current || IN_NETWORK in current then
        if NETWORK_ERROR in v.recorded && NETWORK_ERROR !in current
        then current + {FINAL, MANUAL, NETWORK_ERROR} - {OBSOLETE}
        else current
      else current + {FINAL, MANUAL} - {OBSOLETE}
    else if current == {FINAL} then current
    else current + {FINAL, MANUAL, OBSOLETE}
  }

  function RewriteAll(rows: map<nat, Status>, items: seq<Item>, finalId: nat): (r: map<nat, Status>)
    requires forall v | v in items :: v.id in rows
    ensures r.Keys == rows.Keys
  {
    if items == [] then rows
    else RewriteAll(rows[items[0].id := Rewritten(rows[items[0].id], items[0], finalId)], items[1..], finalId)
  }

  // The item leaves its row alone: a network row that checks out, or a row that is exactly FINAL.
  predicate Skipped(current: Status, v: Item, finalId: nat) {
    if v.id == finalId then
      (FINAL in current || IN_NETWORK in current) && !(NETWORK_ERROR in v.recorded && NETWORK_ERROR !in current)
    else current == {FINAL}
  }

  // What an item writes to the log: the new status, if it differs from the recorded one in more
  // than the manual bit.
  function LogEntry(current: Status, v: Item, finalId: nat): seq<(nat, Status)> {
    var status := Rewritten(current, v, finalId);
    if Skipped(current, v, finalId) || IgnoreManual(status) == IgnoreManual(v.recorded) then [] else [(v.id, status)]
  }

  function LogOf(rows: map<nat, Status>, items: seq<Item>, finalId: nat): seq<(nat, Status)>
    requires forall v | v in items :: v.id in rows
  {
    if items == [] then []
    else
      var v := items[0];
      LogEntry(rows[v.id], v, finalId) + LogOf(rows[v.id := Rewritten(rows[v.id], v, finalId)], items[1..], finalId)
  }

  class Auditor {
    var rows: map<nat, Status>
    var log: seq<(nat, Status)>     // state changes written to the log, oldest first

    constructor (queue: map<nat, Status>)
      ensures rows == queue && log == []
    {
      rows := queue;
      log := [];
    }

    /** The final loop of the audit of one sender and nonce. */
    method Rewrite(items: seq<Item>, finalId: nat)
      requires forall v | v in items :: v.id in rows
      modifies this
      ensures rows == RewriteAll(old(rows), items, finalId)
      ensures log == old(log) + LogOf(old(rows), items, finalId)
    {
      for i := 0 to |items|
        invariant rows.Keys == old(rows).Keys
        invariant RewriteAll(rows, items[i..], finalId) == RewriteAll(old(rows), items, finalId)
        invariant log + LogOf(rows, items[i..], finalId) == old(log) + LogOf(old(rows), items, finalId)
      {
        assert items[i..][0] == items[i] && items[i..][1..] == items[i + 1..];
        RewriteOne(items[i], finalId);
      }
    }

    // The body of the loop.
    method RewriteOne(v: Item, finalId: nat)
      requires v.id in rows
      modifies this
      ensures rows == old(rows)[v.id := Rewritten(old(rows)[v.id], v, finalId)]
      ensures log == old(log) + LogEntry(old(rows)[v.id], v, finalId)
      ensures var status, now := old(rows)[v.id], rows[v.id];
              var sent := FINAL in status || IN_NETWORK in status;
              var failed := NETWORK_ERROR in v.recorded && NETWORK_ERROR !in status;
              var skipped := if v.id == finalId then sent && !failed else status == {FINAL};
              && now == (if skipped then status
                         else if v.id != finalId then status + {FINAL, MANUAL, OBSOLETE}
                         else status + {FINAL, MANUAL} + (if sent then {NETWORK_ERROR} else {}) - {OBSOLETE})
              && log == old(log) + if skipped || now - {MANUAL} == v.recorded - {MANUAL} then [] else [(v.id, now)]
    {
      var status := rows[v.id];
      var toSet := {FINAL, MANUAL, OBSOLETE};
      var toClear := {};
      assert rows == rows[v.id := status];
      if v.id == finalId {
        toSet := {FINAL, MANUAL};
        toClear := {OBSOLETE};
        if FINAL in status || IN_NETWORK in status {
          if NETWORK_ERROR in v.recorded && NETWORK_ERROR !in status {
            toSet := toSet + {NETWORK_ERROR};
          } else {
            return;
          }
        }
      } else if status == {FINAL} {
        return;
      }
      assert Rewritten(status, v, finalId) == status + toSet - toClear;
      status := status + toSet;
      status := status - toClear;
      rows := rows[v.id := status];
      if IgnoreManual(status) == IgnoreManual(v.recorded) {
        return;
      }
      log := log + [(v.id, status)];
    }
  }

  // ----- what the loop does to each row -----

  /** The loop clears no bit but OBSOLETE, and that only on the final network row. */
  lemma {:induction false} OnlyObsoleteIsCleared(rows: map<nat, Status>, items: seq<Item>, finalId: nat, id: nat,
                                                 bit: StatusBit)
    requires id in rows && forall v | v in items :: v.id in rows
    requires bit in rows[id] && bit !in RewriteAll(rows, items, finalId)[id]
    ensures bit == OBSOLETE && id == finalId
  {
    if items == [] {
    } else {
      var next := rows[items[0].id := Rewritten(rows[items[0].id], items[0], finalId)];
      if bit in next[id] {
        OnlyObsoleteIsCleared(next, items[1..], finalId, id, bit);
      }
    }
  }

  /** Every row named by an item, the network row apart, ends with FINAL, MANUAL and OBSOLETE
      and keeps its other bits, unless it was exactly FINAL, and then it stays that. */
  lemma {:induction false} NamedRowsAreClosed(rows: map<nat, Status>, items: seq<Item>, finalId: nat, id: nat)
    requires id in rows && (forall v | v in items :: v.id in rows) && id != finalId
    ensures RewriteAll(rows, items, finalId)[id] ==
            if (exists v :: v in items && v.id == id) && rows[id] != {FINAL}
            then rows[id] + {FINAL, MANUAL, OBSOLETE} else rows[id]
  {
    if items == [] {
    } else {
      var next := rows[items[0].id := Rewritten(rows[items[0].id], items[0], finalId)];
      NamedRowsAreClosed(next, items[1..], finalId, id);
      assert OBSOLETE in rows[id] + {FINAL, MANUAL, OBSOLETE};
      if v :| v in items && v.id == id {
        assert v == items[0] || v in items[1..];
      }
    }
  }

  predicate Names(items: seq<Item>, id: nat) {
    exists v :: v in items && v.id == id
  }

  predicate RecordsError(items: seq<Item>, id: nat) {
    exists v :: v in items && v.id == id && NETWORK_ERROR in v.recorded
  }

  lemma NamesFirstOrRest(items: seq<Item>, id: nat)
    requires items != []
    ensures Names(items, id) <==> items[0].id == id || Names(items[1..], id)
    ensures RecordsError(items, id) <==>
            (items[0].id == id && NETWORK_ERROR in items[0].recorded) || RecordsError(items[1..], id)
  {
    assert forall v :: v in items <==> v == items[0] || v in items[1..];
  }

  /** The network row, once named, ends with FINAL exactly if it had it, or was not in the
      network, or is recorded with a network error that the queue does not have: a row the
      queue holds in the network and not yet final is left as it is. */
  lemma {:induction false} NetworkRowIsFinalExactly(rows: map<nat, Status>, items: seq<Item>, finalId: nat)
    requires finalId in rows && (forall v | v in items :: v.id in rows) && Names(items, finalId)
    ensures FINAL in RewriteAll(rows, items, finalId)[finalId] <==>
            FINAL in rows[finalId] || IN_NETWORK !in rows[finalId] ||
            (NETWORK_ERROR !in rows[finalId] && RecordsError(items, finalId))
  {
    var next := rows[items[0].id := Rewritten(rows[items[0].id], items[0], finalId)];
    NamesFirstOrRest(items, finalId);
    if Names(items[1..], finalId) {
      NetworkRowIsFinalExactly(next, items[1..], finalId);
    } else {
      UnnamedRowsStay(next, items[1..], finalId, finalId);
    }
  }

  // A row named before is recorded with a network error.
  predicate RecordsErrorAgain(items: seq<Item>, id: nat) {
    exists i, j :: 0 <= i < j < |items| && items[i].id == id && items[j].id == id && NETWORK_ERROR in items[j].recorded
  }

  lemma ErrorAgainFirstOrRest(items: seq<Item>, id: nat)
    requires items != []
    ensures RecordsErrorAgain(items, id) <==>
            if items[0].id == id then RecordsError(items[1..], id) else RecordsErrorAgain(items[1..], id)
  {
    var rest := items[1..];
    if RecordsErrorAgain(items, id) {
      var i, j :| 0 <= i < j < |items| && items[i].id == id && items[j].id == id && NETWORK_ERROR in items[j].recorded;
      assert rest[j - 1] == items[j];
      if items[0].id == id {
        assert rest[j - 1] in rest;
      } else {
        assert rest[i - 1] == items[i];
      }
    }
    if items[0].id == id && RecordsError(rest, id) {
      var v :| v in rest && v.id == id && NETWORK_ERROR in v.recorded;
      var j :| 0 <= j < |rest| && rest[j] == v;
      assert items[j + 1] == v;
    }
    if items[0].id != id && RecordsErrorAgain(rest, id) {
      var i, j :| 0 <= i < j < |rest| && rest[i].id == id && rest[j].id == id && NETWORK_ERROR in rest[j].recorded;
      assert items[i + 1] == rest[i] && items[j + 1] == rest[j];
    }
  }

  // The network row when the queue has sent it: only an error that it does not have changes it.
  lemma {:induction false} SentRowEndsExactly(rows: map<nat, Status>, items: seq<Item>, finalId: nat)
    requires finalId in rows && (forall v | v in items :: v.id in rows)
    requires FINAL in rows[finalId] || IN_NETWORK in rows[finalId]
    ensures var s := rows[finalId];
            RewriteAll(rows, items, finalId)[finalId] ==
            if NETWORK_ERROR !in s && RecordsError(items, finalId)
            then s + {FINAL, MANUAL, NETWORK_ERROR} - {OBSOLETE} else s
  {
    if items == [] {
    } else {
      NamesFirstOrRest(items, finalId);
      SentRowEndsExactly(rows[items[0].id := Rewritten(rows[items[0].id], items[0], finalId)], items[1..], finalId);
    }
  }

  /** The network row, once named, ends exactly like this: if the queue has sent it, it stays as it
      is, or, if an error is recorded that it does not have, gets FINAL, MANUAL and the error and
      loses OBSOLETE; if not, it gets FINAL and MANUAL, loses OBSOLETE, and gets the error only if
      that is recorded when it is named again. */
  lemma {:induction false} NetworkRowEndsExactly(rows: map<nat, Status>, items: seq<Item>, finalId: nat)
    requires finalId in rows && (forall v | v in items :: v.id in rows) && Names(items, finalId)
    ensures var s, end := rows[finalId], RewriteAll(rows, items, finalId)[finalId];
            if FINAL in s || IN_NETWORK in s then
              end == if NETWORK_ERROR !in s && RecordsError(items, finalId)
                     then s + {FINAL, MANUAL, NETWORK_ERROR} - {OBSOLETE} else s
            else
              end == s + {FINAL, MANUAL} - {OBSOLETE} +
                     if RecordsErrorAgain(items, finalId) then {NETWORK_ERROR} else {}
  {
    var next := rows[items[0].id := Rewritten(rows[items[0].id], items[0], finalId)];
    if FINAL in rows[finalId] || IN_NETWORK in rows[finalId] {
      SentRowEndsExactly(rows, items, finalId);
    } else {
      NamesFirstOrRest(items, finalId);
      ErrorAgainFirstOrRest(items, finalId);
      if items[0].id == finalId {
        SentRowEndsExactly(next, items[1..], finalId);
      } else {
        NetworkRowEndsExactly(next, items[1..], finalId);
      }
    }
  }

  /** A network row that the queue has in the network is left open by the audit. */
  lemma NetworkRowStaysOpen(id: nat)
    ensures RewriteAll(map[id := {IN_NETWORK}], [Item(id, {IN_NETWORK})], id)[id] == {IN_NETWORK}
  {
    var items := [Item(id, {IN_NETWORK})];
    assert Rewritten({IN_NETWORK}, items[0], id) == {IN_NETWORK};
    assert items[1..] == [];
    QuietRowsStay(map[id := {IN_NETWORK}], items, id, id);
  }

  // None of the items changes the row any more.
  ghost predicate Quiet(current: Status, items: seq<Item>, finalId: nat, id: nat) {
    forall v | v in items && v.id == id :: Rewritten(current, v, finalId) == current
  }

  lemma {:induction false} QuietRowsStay(rows: map<nat, Status>, items: seq<Item>, finalId: nat, id: nat)
    requires id in rows && (forall v | v in items :: v.id in rows) && Quiet(rows[id], items, finalId, id)
    ensures RewriteAll(rows, items, finalId)[id] == rows[id]
  {
    if items == [] {
    } else {
      QuietRowsStay(rows[items[0].id := Rewritten(rows[items[0].id], items[0], finalId)], items[1..], finalId, id);
    }
  }

  lemma UnnamedRowsStay(rows: map<nat, Status>, items: seq<Item>, finalId: nat, id: nat)
    requires id in rows && (forall v | v in items :: v.id in rows) && forall v | v in items :: v.id != id
    ensures RewriteAll(rows, items, finalId)[id] == rows[id]
  {
    QuietRowsStay(rows, items, finalId, id);
  }

  lemma BitIsKept(rows: map<nat, Status>, items: seq<Item>, finalId: nat, id: nat, bit: StatusBit)
    requires id in rows && forall v | v in items :: v.id in rows
    requires bit in rows[id] && bit != OBSOLETE
    ensures bit in RewriteAll(rows, items, finalId)[id]
  {
    if bit !in RewriteAll(rows, items, finalId)[id] {
      OnlyObsoleteIsCleared(rows, items, finalId, id, bit);
    }
  }

  predicate Sent(s: Status) {
    FINAL in s || IN_NETWORK in s
  }

  // After a pass the network row, if named, is in the network or final.
  lemma SentAfterPass(rows: map<nat, Status>, items: seq<Item>, finalId: nat)
    requires finalId in rows && (forall v | v in items :: v.id in rows) && Names(items, finalId)
    ensures Sent(RewriteAll(rows, items, finalId)[finalId])
  {
    NetworkRowIsFinalExactly(rows, items, finalId);
    if IN_NETWORK in rows[finalId] {
      BitIsKept(rows, items, finalId, finalId, IN_NETWORK);
    }
  }

  // A pass over a network row that is there already notes the error, if one is recorded.
  lemma {:induction false} ErrorNotedAfterPass(rows: map<nat, Status>, items: seq<Item>, finalId: nat)
    requires finalId in rows && (forall v | v in items :: v.id in rows) && Sent(rows[finalId])
    ensures RecordsError(items, finalId) ==> NETWORK_ERROR in RewriteAll(rows, items, finalId)[finalId]
  {
    if items == [] {
    } else {
      var next := rows[items[0].id := Rewritten(rows[items[0].id], items[0], finalId)];
      NamesFirstOrRest(items, finalId);
      ErrorNotedAfterPass(next, items[1..], finalId);
      if NETWORK_ERROR in next[finalId] {
        BitIsKept(next, items[1..], finalId, finalId, NETWORK_ERROR);
      }
    }
  }

  lemma QuietAfterTwoPasses(rows: map<nat, Status>, items: seq<Item>, finalId: nat, id: nat)
    requires id in rows && forall v | v in items :: v.id in rows
    ensures var once := RewriteAll(rows, items, finalId);
            Quiet(RewriteAll(once, items, finalId)[id], items, finalId, id)
  {
    var once := RewriteAll(rows, items, finalId);
    var twice := RewriteAll(once, items, finalId);
    forall v | v in items && v.id == id ensures Rewritten(twice[id], v, finalId) == twice[id] {
      if id == finalId {
        SentAfterPass(rows, items, finalId);
        SentAfterPass(once, items, finalId);
        ErrorNotedAfterPass(once, items, finalId);
      } else {
        NamedRowsAreClosed(once, items, finalId, id);
      }
    }
  }

  /** Running the loop again on the same items reaches a fixed point within two passes: the
      third pass changes nothing. */
  lemma TwoPassesSettle(rows: map<nat, Status>, items: seq<Item>, finalId: nat)
    requires forall v | v in items :: v.id in rows
    ensures var once := RewriteAll(rows, items, finalId);
            var twice := RewriteAll(once, items, finalId);
            RewriteAll(twice, items, finalId) == twice
  {
    var once := RewriteAll(rows, items, finalId);
    var twice := RewriteAll(once, items, finalId);
    forall id | id in rows ensures RewriteAll(twice, items, finalId)[id] == twice[id] {
      QuietAfterTwoPasses(rows, items, finalId, id);
      QuietRowsStay(twice, items, finalId, id);
    }
  }

  /** One pass is not enough: a network row that the queue has not sent is closed by the first,
      and gets its recorded error only from the second. */
  lemma OnePassIsNotEnough(id: nat)
    ensures var items := [Item(id, {NETWORK_ERROR})];
            var once := RewriteAll(map[id := PENDING], items, id);
            once[id] == {FINAL, MANUAL} && RewriteAll(once, items, id)[id] == {FINAL, MANUAL, NETWORK_ERROR}
  {
    var items := [Item(id, {NETWORK_ERROR})];
    assert items[1..] == [];
    var once := map[id := PENDING][id := Rewritten(PENDING, items[0], id)];
    assert RewriteAll(map[id := PENDING], items, id) == RewriteAll(once, [], id) == once;
  }
}
