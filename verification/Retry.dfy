/** One pass of the retrier: the cut-off before which transactions count as stalled, and the
    transactions of the two stalled sets that are handed on. */
module Retry {
  import opened Basics
  import opened Queue

  const SECOND: int := 1000000

  // Times are whole microseconds; the last-seen time of the tracker is in whole seconds,
  // 0 if the tracker has not been seen.
  function Seconds(t: int): int {
    t / SECOND
  }

  // The clock is read in UTC without saying so, and converted to and from seconds as if it
  // were local time; zone is how many seconds local time is ahead of UTC.
  function CutOff(now: nat, grace: nat, lastSeen: nat, zone: int): int {
    var before := now - grace * SECOND;
    if lastSeen != 0 && Seconds(before - zone * SECOND) > lastSeen then (lastSeen + zone - grace) * SECOND else before
  }

  // The transactions whose nonce is the one noted for their sender.
  function Matching(txs: seq<Tx>, noted: map<Address, nat>): (r: seq<Tx>)
    ensures |r| <= |txs|
  {
    if txs == [] then []
    else
      var tx := txs[|txs| - 1];
      Matching(txs[..|txs| - 1], noted) + if tx.sender in noted && noted[tx.sender] == tx.nonce then [tx] else []
  }

  // The nonces noted after the transactions: for each sender the network's answer to the query
  // made for its first one.
  function Noted(txs: seq<Tx>, network: nat -> nat): map<Address, nat> {
    if txs == [] then map[]
    else
      var noted, a := Noted(txs[..|txs| - 1], network), txs[|txs| - 1].sender;
      if a in noted then noted else noted[a := network(|txs| - 1)]
  }

  // Every sender of the transactions has its nonce noted.
  ghost predicate Covered(txs: seq<Tx>, noted: map<Address, nat>) {
    forall i :: 0 <= i < |txs| ==> txs[i].sender in noted
  }

  // What one set hands on.
  function HandedOn(txs: seq<Tx>, network: nat -> nat): (r: seq<Tx>)
    ensures |r| <= |txs|
  {
    Matching(txs, Noted(txs, network))
  }

  // What a query with a limit returns of the rows it would find; the limit 0 means none.
  function Limited(stored: seq<Tx>, limit: nat): seq<Tx> {
    if limit == 0 || |stored| <= limit then stored else stored[..limit]
  }

  function First(stored: seq<Tx>, n: nat): (r: seq<Tx>)
    ensures |r| <= n
  {
    if |stored| <= n then stored else stored[..n]
  }

  /** Remembers, for one set, the confirmed nonce of each sender the first time it is asked. */
  class NonceChecker {
    var noncesNext: map<Address, nat>

    constructor ()
      ensures noncesNext == map[]
    {
      noncesNext := map[];
    }

    /** The answer is what the network would say now. */
    method Check(tx: Tx, answer: nat) returns (r: bool)
      modifies this
      ensures noncesNext ==
              if tx.sender in old(noncesNext) then old(noncesNext) else old(noncesNext)[tx.sender := answer]
      ensures r <==> tx.nonce == noncesNext[tx.sender]
    {
      if tx.sender !in noncesNext {
        noncesNext := noncesNext[tx.sender := answer];
      }
      if tx.nonce < noncesNext[tx.sender] {
        return false;
      }
      r := tx.nonce == noncesNext[tx.sender];
    }
  }

  class Retrier {
    const batchSize: nat
    var batchCount: nat
    var handed: seq<Tx>            // what the filter has been given

    constructor (size: nat)
      ensures batchSize == size && batchCount == 0 && handed == []
    {
      batchSize := size;
      batchCount := 0;
      handed := [];
    }

    /** One stalled set; network(i) answers the query made for its i-th transaction. */
    method ProcessSet(txs: seq<Tx>, network: nat -> nat) returns (full: bool, noted: map<Address, nat>, seen: nat)
      requires batchCount <= batchSize
      modifies this
      ensures batchCount <= batchSize
      ensures seen <= |txs| && (full <==> seen < |txs|) && (full ==> batchCount == batchSize)
      ensures old(batchCount) == batchSize ==> seen == 0
      ensures old(batchCount) + |txs| <= batchSize ==> !full
      ensures handed == old(handed) + HandedOn(txs[..seen], network)
      ensures batchCount == old(batchCount) + |HandedOn(txs[..seen], network)|
      ensures noted == Noted(txs[..seen], network)
    {
      var checker := new NonceChecker();
      seen := 0;
      noted := map[];
      full := false;
      while seen < |txs|
        invariant seen <= |txs| && batchCount <= batchSize
        invariant checker.noncesNext == noted && fresh(checker)
        invariant handed == old(handed) + HandedOn(txs[..seen], network)
        invariant batchCount == old(batchCount) + |HandedOn(txs[..seen], network)|
        invariant old(batchCount) == batchSize ==> seen == 0
        invariant noted == Noted(txs[..seen], network)
      {
        if batchCount >= batchSize {
          full := true;
          return;
        }
        var tx := txs[seen];
        var take := checker.Check(tx, network(seen));
        NotedNext(txs, seen, network);
        noted := checker.noncesNext;
        if take {
          handed := handed + [tx];
          batchCount := batchCount + 1;
        }
        seen := seen + 1;
      }
    }

    /** One pass over the stalled transactions: those in the network, then those short of gas.
        The sets are what the database holds from before the cut-off, in the order it returns
        them; each query is limited to the room left in the batch. */
    method Process(inNetwork: seq<Tx>, shortOfGas: seq<Tx>, now: nat, grace: nat, lastSeen: nat, zone: int,
                   network1: nat -> nat, network2: nat -> nat)
      returns (before: int)
      modifies this
      ensures before == CutOff(now, grace, lastSeen, zone)
      ensures var first := First(inNetwork, batchSize);
              var second := First(shortOfGas, batchSize - |HandedOn(first, network1)|);
              && handed == old(handed) + HandedOn(first, network1) + HandedOn(second, network2)
              && |HandedOn(first, network1)| + |HandedOn(second, network2)| <= batchSize
    {
      batchCount := 0;
      before := now - grace * SECOND;
      var beforeSeconds := Seconds(before - zone * SECOND);
      if lastSeen == 0 {
        // only a warning: the pass goes on
      } else if beforeSeconds > lastSeen {
        before := (lastSeen + zone) * SECOND - grace * SECOND;
      }
      var full, noted, seen;
      var stalled := Limited(inNetwork, batchSize - batchCount);
      full, noted, seen := ProcessSet(stalled, network1);
      assert stalled[..seen] == First(inNetwork, batchSize);
      if full {
        return;
      }
      stalled := Limited(shortOfGas, batchSize - batchCount);
      full, noted, seen := ProcessSet(stalled, network2);
      assert stalled[..seen] == First(shortOfGas, batchSize - |HandedOn(First(inNetwork, batchSize), network1)|);
    }
  }

  // What one more transaction, checked, adds to the notes and to the selection.
  lemma NotedNext(txs: seq<Tx>, n: nat, network: nat -> nat)
    requires n < |txs|
    ensures var noted, more := Noted(txs[..n], network), Noted(txs[..n + 1], network);
            && more == (if txs[n].sender in noted then noted else noted[txs[n].sender := network(n)])
            && HandedOn(txs[..n + 1], network) ==
               HandedOn(txs[..n], network) + if txs[n].nonce == more[txs[n].sender] then [txs[n]] else []
  {
    assert txs[..n + 1][..n] == txs[..n];
    NotedCovers(txs[..n], network);
    MatchingIsStable(txs[..n], Noted(txs[..n], network), Noted(txs[..n + 1], network));
  }

  lemma {:induction false} NotedCovers(txs: seq<Tx>, network: nat -> nat)
    ensures Covered(txs, Noted(txs, network))
  {
    if txs == [] {
    } else {
      NotedCovers(txs[..|txs| - 1], network);
    }
  }

  // A nonce noted for a new sender changes nothing for the transactions already passed.
  lemma {:induction false} MatchingIsStable(txs: seq<Tx>, noted: map<Address, nat>, more: map<Address, nat>)
    requires Covered(txs, noted)
    requires forall a | a in noted :: a in more && more[a] == noted[a]
    ensures Matching(txs, noted) == Matching(txs, more)
  {
    if txs == [] {
    } else {
      MatchingIsStable(txs[..|txs| - 1], noted, more);
    }
  }

  /** Whatever is handed on is one of the set, with the confirmed nonce of its sender. */
  lemma {:induction false} MatchingMeans(txs: seq<Tx>, noted: map<Address, nat>, tx: Tx)
    ensures tx in Matching(txs, noted) <==> tx in txs && tx.sender in noted && tx.nonce == noted[tx.sender]
  {
    if txs == [] {
    } else {
      var front := txs[..|txs| - 1];
      MatchingMeans(front, noted, tx);
      assert tx in txs <==> tx in front || tx == txs[|txs| - 1];
    }
  }

  /** Within one set, all retried transactions of a sender have the same nonce. */
  lemma OneNoncePerSender(txs: seq<Tx>, noted: map<Address, nat>, t: Tx, u: Tx)
    requires t in Matching(txs, noted) && u in Matching(txs, noted) && t.sender == u.sender
    ensures t.nonce == u.nonce
  {
    MatchingMeans(txs, noted, t);
    MatchingMeans(txs, noted, u);
  }

  /** What a limited query finds is the first of the rows, as many as the limit or as there are. */
  lemma FirstExactly(stored: seq<Tx>, n: nat, i: nat)
    ensures |First(stored, n)| == if n < |stored| then n else |stored|
    ensures i < |First(stored, n)| ==> First(stored, n)[i] == stored[i]
    ensures n > 0 ==> Limited(stored, n) == First(stored, n)
    ensures Limited(stored, 0) == stored
  {
  }

  /** The nonce noted for a sender is the answer to the query made for its first transaction. */
  lemma {:induction false} NotedIsFirstAnswer(txs: seq<Tx>, network: nat -> nat, i: nat)
    requires i < |txs| && forall j | 0 <= j < i :: txs[j].sender != txs[i].sender
    ensures txs[i].sender in Noted(txs, network) && Noted(txs, network)[txs[i].sender] == network(i)
  {
    var front := txs[..|txs| - 1];
    if i == |txs| - 1 {
      SendersNoted(front, network, txs[i].sender);
    } else {
      NotedIsFirstAnswer(front, network, i);
    }
  }

  lemma {:induction false} SendersNoted(txs: seq<Tx>, network: nat -> nat, a: Address)
    ensures a in Noted(txs, network) <==> exists tx :: tx in txs && tx.sender == a
  {
    if txs == [] {
    } else {
      var front, last := txs[..|txs| - 1], txs[|txs| - 1];
      SendersNoted(front, network, a);
      assert txs == front + [last];
    }
  }

  /** Of the transactions in order, the n-th is handed on exactly if it has the nonce that the
      network answered for the first one of its sender, the i-th. */
  lemma HandedOnExactly(txs: seq<Tx>, network: nat -> nat, n: nat, i: nat)
    requires i <= n < |txs| && txs[i].sender == txs[n].sender
    requires forall j | 0 <= j < i :: txs[j].sender != txs[i].sender
    ensures HandedOn(txs[..0], network) == []
    ensures HandedOn(txs[..n + 1], network) ==
            HandedOn(txs[..n], network) + if txs[n].nonce == network(i) then [txs[n]] else []
  {
    NotedNext(txs, n, network);
    NotedIsFirstAnswer(txs[..n + 1], network, i);
  }

  // ----- what is left out -----

  // The transaction has its sender's confirmed nonce.
  predicate Ready(tx: Tx, confirmed: Address -> nat) {
    tx.nonce == confirmed(tx.sender)
  }

  function ReadyOf(txs: seq<Tx>, confirmed: Address -> nat): (r: seq<Tx>)
    ensures |r| <= |txs|
  {
    if txs == [] then []
    else
      var tx := txs[|txs| - 1];
      ReadyOf(txs[..|txs| - 1], confirmed) + if Ready(tx, confirmed) then [tx] else []
  }

  // The network answers every query for the set with the confirmed nonce of the sender.
  ghost predicate Steady(txs: seq<Tx>, network: nat -> nat, confirmed: Address -> nat) {
    forall i: nat | i < |txs| :: network(i) == confirmed(txs[i].sender)
  }

  // What a pass hands on of each set while the confirmed nonces stay as they are.
  function HandedInNetwork(inNetwork: seq<Tx>, batchSize: nat, confirmed: Address -> nat): (r: seq<Tx>)
    ensures |r| <= batchSize
  {
    ReadyOf(First(inNetwork, batchSize), confirmed)
  }

  function HandedShortOfGas(inNetwork: seq<Tx>, shortOfGas: seq<Tx>, batchSize: nat,
                            confirmed: Address -> nat): seq<Tx> {
    ReadyOf(First(shortOfGas, batchSize - |HandedInNetwork(inNetwork, batchSize, confirmed)|), confirmed)
  }

  // Under a steady network every nonce noted is the confirmed one.
  lemma {:induction false} NotedIsConfirmed(txs: seq<Tx>, network: nat -> nat, confirmed: Address -> nat, a: Address)
    requires Steady(txs, network, confirmed) && a in Noted(txs, network)
    ensures Noted(txs, network)[a] == confirmed(a)
  {
    assert txs != [];
    if a !in Noted(txs[..|txs| - 1], network) {
    } else {
      NotedIsConfirmed(txs[..|txs| - 1], network, confirmed, a);
    }
  }

  lemma {:induction false} MatchingIsReady(txs: seq<Tx>, noted: map<Address, nat>, confirmed: Address -> nat)
    requires Covered(txs, noted) && forall a | a in noted :: noted[a] == confirmed(a)
    ensures Matching(txs, noted) == ReadyOf(txs, confirmed)
  {
    if txs == [] {
    } else {
      MatchingIsReady(txs[..|txs| - 1], noted, confirmed);
    }
  }

  /** While the confirmed nonces stay as they are, a set hands on those of its transactions that
      have the confirmed nonce of their sender. */
  lemma SteadyNetworkHandsOnReady(txs: seq<Tx>, network: nat -> nat, confirmed: Address -> nat)
    requires Steady(txs, network, confirmed)
    ensures HandedOn(txs, network) == ReadyOf(txs, confirmed)
  {
    NotedCovers(txs, network);
    forall a | a in Noted(txs, network) ensures Noted(txs, network)[a] == confirmed(a) {
      NotedIsConfirmed(txs, network, confirmed, a);
    }
    MatchingIsReady(txs, Noted(txs, network), confirmed);
  }

  // The first n transactions are there and all ready.
  predicate ReadyUpTo(txs: seq<Tx>, n: nat, confirmed: Address -> nat) {
    n <= |txs| && forall i | 0 <= i < n :: Ready(txs[i], confirmed)
  }

  // No transaction from the n-th on is ready.
  predicate NoneReadyFrom(txs: seq<Tx>, n: nat, confirmed: Address -> nat) {
    forall i | n <= i < |txs| :: !Ready(txs[i], confirmed)
  }

  lemma {:induction false} AllReadyExactly(txs: seq<Tx>, confirmed: Address -> nat)
    ensures |ReadyOf(txs, confirmed)| == |txs| <==> ReadyUpTo(txs, |txs|, confirmed)
  {
    if txs == [] {
    } else {
      var front := txs[..|txs| - 1];
      AllReadyExactly(front, confirmed);
      assert ReadyUpTo(txs, |txs|, confirmed) <==>
             ReadyUpTo(front, |front|, confirmed) && Ready(txs[|txs| - 1], confirmed);
    }
  }

  // The limited query finds all that is ready exactly if nothing behind the limit is.
  lemma {:induction false} LimitFindsAllExactly(txs: seq<Tx>, n: nat, confirmed: Address -> nat)
    ensures ReadyOf(First(txs, n), confirmed) == ReadyOf(txs, confirmed) <==> NoneReadyFrom(txs, n, confirmed)
    ensures |ReadyOf(First(txs, n), confirmed)| <= |ReadyOf(txs, confirmed)|
    ensures |ReadyOf(First(txs, n), confirmed)| == |ReadyOf(txs, confirmed)| ==> NoneReadyFrom(txs, n, confirmed)
  {
    if |txs| <= n {
    } else {
      var front := txs[..|txs| - 1];
      LimitFindsAllExactly(front, n, confirmed);
      assert First(front, n) == First(txs, n);
      assert NoneReadyFrom(txs, n, confirmed) <==>
             NoneReadyFrom(front, n, confirmed) && !Ready(txs[|txs| - 1], confirmed);
    }
  }

  lemma BatchFullExactly(txs: seq<Tx>, n: nat, confirmed: Address -> nat)
    ensures |ReadyOf(First(txs, n), confirmed)| == n <==> ReadyUpTo(txs, n, confirmed)
  {
    AllReadyExactly(First(txs, n), confirmed);
  }

  /** A pass fills its batch or hands on everything that is ready exactly if one of the limited
      queries returns nothing but ready transactions to its limit, or nothing behind either
      limit is ready. Otherwise what it passes over takes up the room of what it never sees. */
  lemma NothingStrandedExactly(inNetwork: seq<Tx>, shortOfGas: seq<Tx>, batchSize: nat, confirmed: Address -> nat)
    ensures var first := HandedInNetwork(inNetwork, batchSize, confirmed);
            var second := HandedShortOfGas(inNetwork, shortOfGas, batchSize, confirmed);
            var room := batchSize - |first|;
            (|first| + |second| == batchSize ||
             (first == ReadyOf(inNetwork, confirmed) && second == ReadyOf(shortOfGas, confirmed)))
            <==>
            (ReadyUpTo(inNetwork, batchSize, confirmed) || ReadyUpTo(shortOfGas, room, confirmed) ||
             (NoneReadyFrom(inNetwork, batchSize, confirmed) && NoneReadyFrom(shortOfGas, room, confirmed)))
  {
    var room := batchSize - |HandedInNetwork(inNetwork, batchSize, confirmed)|;
    BatchFullExactly(inNetwork, batchSize, confirmed);
    BatchFullExactly(shortOfGas, room, confirmed);
    LimitFindsAllExactly(inNetwork, batchSize, confirmed);
    LimitFindsAllExactly(shortOfGas, room, confirmed);
  }

  /** With a batch of one, a transaction that waits for an earlier nonce, at the front of the
      set, keeps a ready one behind it from being seen, in this pass and in every other that
      finds the set as it is. */
  lemma StrandedBehindFront(front: Tx, behind: Tx, confirmed: Address -> nat)
    requires front.nonce == 9 && confirmed(front.sender) == 5 && behind.nonce == 7 && confirmed(behind.sender) == 7
    ensures HandedInNetwork([front, behind], 1, confirmed) == [] &&
            HandedShortOfGas([front, behind], [], 1, confirmed) == []
    ensures ReadyOf([front, behind], confirmed) == [behind]
  {
    assert First([front, behind], 1) == [front];
    assert [front, behind][..1] == [front] && [front][..0] == [];
    assert !Ready(front, confirmed) && Ready(behind, confirmed);
    assert ReadyOf([front], confirmed) == [];
  }

  // ----- the cut-off -----

  /** The cut-off is exactly now minus the grace period if the tracker has not been seen, or was
      last seen in that second or later, by local time; otherwise it is the grace period before the
      tracker's second. */
  lemma CutOffExactly(now: nat, grace: nat, lastSeen: nat, zone: int)
    ensures CutOff(now, grace, lastSeen, zone) ==
            if lastSeen == 0 || now < (lastSeen + 1 + zone + grace) * 1000000 then now - grace * 1000000
            else (lastSeen + zone - grace) * 1000000
  {
  }

  /** The cut-off is never later than now minus the grace period, in any time zone. */
  lemma CutOffKeepsGrace(now: nat, grace: nat, lastSeen: nat, zone: int)
    ensures CutOff(now, grace, lastSeen, zone) <= now - grace * SECOND
  {
    var moved := now - grace * SECOND - zone * SECOND;
    if lastSeen != 0 && Seconds(moved) > lastSeen {
      assert moved >= Seconds(moved) * SECOND;
    }
  }

  lemma SecondsOfMoved(t: int, zone: int)
    ensures Seconds(t - zone * SECOND) == Seconds(t) - zone
    ensures Seconds(zone * SECOND) == zone
  {
  }

  /** When the tracker has been seen, the cut-off is never in a later second than it was,
      whatever the time, exactly if local time is not ahead of UTC. */
  lemma CutOffNeverPassesTrackerExactly(grace: nat, lastSeen: nat, zone: int)
    requires lastSeen != 0
    ensures (forall now: nat :: Seconds(CutOff(now, grace, lastSeen, zone)) <= lastSeen) <==> zone <= 0
  {
    forall now: nat | zone <= 0 ensures Seconds(CutOff(now, grace, lastSeen, zone)) <= lastSeen {
      SecondsOfMoved(now - grace * SECOND, zone);
      SecondsOfMoved(0, lastSeen + zone - grace);
    }
    if zone > 0 {
      var now := (lastSeen + zone + grace) * SECOND;
      SecondsOfMoved(now - grace * SECOND, zone);
      SecondsOfMoved(0, lastSeen + zone);
      assert Seconds(CutOff(now, grace, lastSeen, zone)) > lastSeen;
    }
  }

  /** In UTC it is later than the tracker at all exactly if now minus the grace period falls in
      that very second, past its start: the comparison drops the fraction. */
  lemma CutOffPassesByFraction(now: nat, grace: nat, lastSeen: nat)
    requires lastSeen != 0
    ensures CutOff(now, grace, lastSeen, 0) > lastSeen * SECOND <==>
            Seconds(now - grace * SECOND) == lastSeen && (now - grace * SECOND) % SECOND > 0
  {
    var before := now - grace * SECOND;
    assert before == Seconds(before) * SECOND + before % SECOND;
    if Seconds(before) > lastSeen {
      assert (lastSeen - grace) * SECOND <= lastSeen * SECOND;
    }
  }
}
