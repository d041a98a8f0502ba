/** Finding the gaps in a sender's nonces and renumbering the transactions above them. */
module Compaction {
  import opened Basics

  // A queue row of the sender: its nonce and its signed transaction.
  datatype Entry = Entry(nonce: nat, signed: string)

  // A transaction handed out for re-signing: the nonce it is about, its new nonce, and the
  // signed transaction whose details are used.
  datatype Renumbering = Renumbering(nonce: int, newNonce: int, details: string)

  // The order of the query result.
  ghost predicate Sorted(rows: seq<Entry>) {
    forall i, j :: 0 <= i < j < |rows| ==> rows[i].nonce <= rows[j].nonce
  }

  function Present(rows: seq<Entry>): set<int> {
    set row | row in rows :: row.nonce
  }

  // The distinct nonces of the rows below a bound.
  function Below(rows: seq<Entry>, bound: int): set<int> {
    set n | n in Present(rows) && n < bound
  }

  // How many nonces from the first one up to the bound no row has.
  function Missing(rows: seq<Entry>, bound: int): int
    requires rows != []
  {
    bound - rows[0].nonce - |Below(rows, bound)|
  }

  // The signed transaction of the last row with the nonce.
  function Latest(rows: seq<Entry>, n: int): Option<string> {
    if rows == [] then None
    else if rows[|rows| - 1].nonce == n then Some(rows[|rows| - 1].signed)
    else Latest(rows[..|rows| - 1], n)
  }

  // A present nonce, not the first, whose predecessor is missing.
  predicate IsGap(rows: seq<Entry>, n: int) {
    rows != [] && rows[0].nonce < n && n in Present(rows) && n - 1 !in Present(rows)
  }

  ghost predicate IsFirstGap(rows: seq<Entry>, gap: int) {
    IsGap(rows, gap) && forall n :: IsGap(rows, n) ==> gap <= n
  }

  ghost predicate HasGap(rows: seq<Entry>) {
    exists n :: IsGap(rows, n)
  }

  lemma BelowNext(rows: seq<Entry>, bound: int)
    ensures Below(rows, bound + 1) ==
            if bound in Present(rows) then Below(rows, bound) + {bound} else Below(rows, bound)
    ensures |Below(rows, bound + 1)| == |Below(rows, bound)| + if bound in Present(rows) then 1 else 0
  {
    if bound in Present(rows) {
      assert Below(rows, bound + 1) == Below(rows, bound) + {bound};
    } else {
      assert Below(rows, bound + 1) == Below(rows, bound);
    }
  }

  // Over a stretch without rows the count of present nonces stands still.
  lemma BelowOverGap(rows: seq<Entry>, from: int, to: int)
    requires from <= to && forall n | from <= n < to :: n !in Present(rows)
    ensures Below(rows, from) == Below(rows, to)
  {
  }

  // Nothing lies between two neighbours of a sorted list.
  lemma NothingBetween(rows: seq<Entry>, j: nat, n: int)
    requires Sorted(rows) && 0 < j < |rows| && rows[j - 1].nonce < n < rows[j].nonce
    ensures n !in Present(rows)
  {
    forall row | row in rows ensures row.nonce != n {
      var i :| 0 <= i < |rows| && rows[i] == row;
      assert i <= j - 1 || j <= i;
    }
  }

  // What is missing up to the next row, in terms of the row before it.
  lemma MissingAtNextRow(rows: seq<Entry>, j: nat)
    requires Sorted(rows) && 0 < j < |rows|
    ensures Missing(rows, rows[j].nonce) ==
            Missing(rows, rows[j - 1].nonce) +
            if rows[j].nonce == rows[j - 1].nonce then 0 else rows[j].nonce - rows[j - 1].nonce - 1
  {
    var last, nonce := rows[j - 1].nonce, rows[j].nonce;
    if last < nonce {
      assert rows[j - 1] in rows;
      BelowNext(rows, last);
      forall n | last + 1 <= n < nonce ensures n !in Present(rows) {
        NothingBetween(rows, j, n);
      }
      BelowOverGap(rows, last + 1, nonce);
    }
  }

  // The table of deltas after the scan has passed all rows up to the given nonce: it has
  // exactly the present nonces above a gap, each with what is missing up to it.
  ghost predicate DeltasSound(rows: seq<Entry>, lastNonce: int, deltas: map<int, int>)
    requires rows != []
  {
    && (forall n :: n in deltas <==> IsGap(rows, n) && n <= lastNonce)
    && (forall n | n in deltas :: deltas[n] == Missing(rows, n))
  }

  ghost predicate FirstGapSound(rows: seq<Entry>, firstGap: int, deltas: map<int, int>)
    requires rows != []
  {
    if deltas == map[] then firstGap == 0 else firstGap in deltas && IsFirstGap(rows, firstGap)
  }

  lemma ScanStep(rows: seq<Entry>, j: nat, deltas: map<int, int>, n: int)
    requires Sorted(rows) && 0 < j < |rows| && DeltasSound(rows, rows[j - 1].nonce, deltas)
    ensures var last, nonce := rows[j - 1].nonce, rows[j].nonce;
            IsGap(rows, n) && n <= nonce <==> n in deltas || (nonce - last > 1 && n == nonce)
  {
    var last, nonce := rows[j - 1].nonce, rows[j].nonce;
    assert rows[j - 1] in rows && rows[j] in rows;
    assert last in Present(rows) && nonce in Present(rows) && rows[0].nonce <= last;
    if last < n < nonce {
      NothingBetween(rows, j, n);
    }
    if nonce - last > 1 {
      NothingBetween(rows, j, nonce - 1);
    }
  }

  // The table and the first gap after one more row.
  function NextDeltas(deltas: map<int, int>, lastNonce: int, nonce: int, currentDelta: int): map<int, int> {
    if nonce - lastNonce - 1 < 1 then deltas else deltas[nonce := currentDelta + (nonce - lastNonce - 1)]
  }

  function NextGap(firstGap: int, lastNonce: int, nonce: int): int {
    if nonce - lastNonce - 1 >= 1 && firstGap == 0 then nonce else firstGap
  }

  lemma DeltasAfterRow(rows: seq<Entry>, j: nat, deltas: map<int, int>, currentDelta: int)
    requires Sorted(rows) && 0 < j < |rows| && DeltasSound(rows, rows[j - 1].nonce, deltas)
    requires currentDelta == Missing(rows, rows[j - 1].nonce)
    ensures DeltasSound(rows, rows[j].nonce, NextDeltas(deltas, rows[j - 1].nonce, rows[j].nonce, currentDelta))
  {
    var last, nonce := rows[j - 1].nonce, rows[j].nonce;
    MissingAtNextRow(rows, j);
    forall n
      ensures n in NextDeltas(deltas, last, nonce, currentDelta) <==> IsGap(rows, n) && n <= nonce
    {
      ScanStep(rows, j, deltas, n);
    }
  }

  lemma FirstGapAfterRow(rows: seq<Entry>, lastNonce: int, nonce: int, firstGap: int, deltas: map<int, int>,
                         currentDelta: int)
    requires rows != [] && DeltasSound(rows, lastNonce, deltas) && FirstGapSound(rows, firstGap, deltas) &&
             lastNonce <= nonce
    requires DeltasSound(rows, nonce, NextDeltas(deltas, lastNonce, nonce, currentDelta))
    ensures FirstGapSound(rows, NextGap(firstGap, lastNonce, nonce), NextDeltas(deltas, lastNonce, nonce, currentDelta))
  {
    var next := NextDeltas(deltas, lastNonce, nonce, currentDelta);
    if nonce - lastNonce - 1 >= 1 && deltas == map[] {
      assert nonce in next;
      forall n | IsGap(rows, n) ensures nonce <= n {
        assert n < nonce ==> n in next;
      }
    }
  }

  // The table of transactions has, for each nonce seen, the last one.
  ghost predicate TxsSound(rows: seq<Entry>, txs: map<int, string>) {
    forall n :: if n in txs then Latest(rows, n) == Some(txs[n]) else Latest(rows, n) == None
  }

  lemma TxsAfterRow(rows: seq<Entry>, j: nat, txs: map<int, string>)
    requires j < |rows| && TxsSound(rows[..j], txs)
    ensures TxsSound(rows[..j + 1], txs[rows[j].nonce := rows[j].signed])
  {
    assert rows[..j + 1][..j] == rows[..j];
  }

  // The variables of the scan, and what becomes of them with the nonce of one more row.
  datatype Scanning = Scanning(lastNonce: int, currentDelta: int, firstGap: int, deltas: map<int, int>)

  ghost function NextRow(s: Scanning, nonce: int): Scanning {
    if s.lastNonce == -1 then Scanning(nonce, 0, s.firstGap, s.deltas)
    else Scanning(nonce, s.currentDelta + if nonce - s.lastNonce - 1 < 1 then 0 else nonce - s.lastNonce - 1,
                  NextGap(s.firstGap, s.lastNonce, nonce), NextDeltas(s.deltas, s.lastNonce, nonce, s.currentDelta))
  }

  ghost function Scanned(rows: seq<Entry>, j: nat): Scanning
    requires j <= |rows|
  {
    if j == 0 then Scanning(-1, 0, 0, map[]) else NextRow(Scanned(rows, j - 1), rows[j - 1].nonce)
  }

  // What the scan holds after the first j rows.
  ghost predicate ScanSound(rows: seq<Entry>, j: nat, s: Scanning)
    requires 0 < j <= |rows|
  {
    && s.lastNonce == rows[j - 1].nonce && s.currentDelta == Missing(rows, s.lastNonce)
    && DeltasSound(rows, s.lastNonce, s.deltas) && FirstGapSound(rows, s.firstGap, s.deltas)
  }

  lemma ScanStart(rows: seq<Entry>)
    requires Sorted(rows) && rows != []
    ensures ScanSound(rows, 1, Scanning(rows[0].nonce, 0, 0, map[]))
  {
    FirstIsLowest(rows);
  }

  lemma ScanNext(rows: seq<Entry>, j: nat, s: Scanning)
    requires Sorted(rows) && 0 < j < |rows| && ScanSound(rows, j, s)
    ensures ScanSound(rows, j + 1, NextRow(s, rows[j].nonce))
  {
    MissingAtNextRow(rows, j);
    DeltasAfterRow(rows, j, s.deltas, s.currentDelta);
    FirstGapAfterRow(rows, rows[j - 1].nonce, rows[j].nonce, s.firstGap, s.deltas, s.currentDelta);
  }

  lemma {:induction false} ScannedSound(rows: seq<Entry>, j: nat)
    requires Sorted(rows) && 0 < j <= |rows|
    ensures ScanSound(rows, j, Scanned(rows, j))
  {
    if j == 1 {
      ScanStart(rows);
      assert Scanned(rows, 1) == NextRow(Scanned(rows, 0), rows[0].nonce);
    } else {
      ScannedSound(rows, j - 1);
      ScanNext(rows, j - 1, Scanned(rows, j - 1));
    }
  }

  /** The scan: note what is missing at every gap, and where the first gap is. */
  method Scan(rows: seq<Entry>) returns (lastNonce: int, firstGap: int, deltas: map<int, int>, txs: map<int, string>)
    requires Sorted(rows) && rows != []
    ensures lastNonce == rows[|rows| - 1].nonce
    ensures DeltasSound(rows, lastNonce, deltas) && FirstGapSound(rows, firstGap, deltas)
    ensures TxsSound(rows, txs)
  {
    lastNonce := -1;
    firstGap := 0;
    deltas := map[];
    txs := map[];
    var currentDelta := 0;
    for j := 0 to |rows|
      invariant Scanning(lastNonce, currentDelta, firstGap, deltas) == Scanned(rows, j)
      invariant TxsSound(rows[..j], txs)
    {
      var nonce, signed := rows[j].nonce, rows[j].signed;
      TxsAfterRow(rows, j, txs);
      if lastNonce == -1 {
        lastNonce := nonce;
        currentDelta := 0;
        txs := txs[nonce := signed];
        continue;
      }
      var delta := nonce - lastNonce - 1;
      if delta < 1 {
        txs := txs[nonce := signed];
        lastNonce := nonce;
        continue;
      }
      deltas := deltas[nonce := currentDelta + delta];
      currentDelta := currentDelta + delta;
      if firstGap == 0 {
        firstGap := nonce;
      }
      lastNonce := nonce;
      txs := txs[nonce := signed];
    }
    ScannedSound(rows, |rows|);
    assert rows[..|rows|] == rows;
  }

  lemma FirstIsLowest(rows: seq<Entry>)
    requires Sorted(rows) && rows != []
    ensures Below(rows, rows[0].nonce) == {}
  {
  }

  lemma {:induction false} LatestOfPresent(rows: seq<Entry>, n: int)
    ensures Latest(rows, n).Some? <==> n in Present(rows)
  {
    if rows == [] {
    } else {
      LatestOfPresent(rows[..|rows| - 1], n);
      assert rows[|rows| - 1] in rows;
      assert forall row :: row in rows <==> row in rows[..|rows| - 1] || row == rows[|rows| - 1];
    }
  }

  // Between two gaps, the number missing does not change along present nonces.
  lemma MissingAlongRun(rows: seq<Entry>, n: int)
    requires rows != [] && n in Present(rows)
    ensures Missing(rows, n + 1) == Missing(rows, n)
  {
    BelowNext(rows, n);
  }

  // The k-th transaction handed out.
  ghost predicate Placed(rows: seq<Entry>, firstGap: int, k: int, e: Renumbering)
    requires rows != []
  {
    && firstGap <= e.nonce && e.nonce in Present(rows)
    && e.newNonce == rows[0].nonce + |Below(rows, e.nonce)|
    && e.newNonce == rows[0].nonce + |Below(rows, firstGap)| + k
    && Some(e.details) == Latest(rows, if e.newNonce in Present(rows) then e.newNonce else e.nonce)
  }

  // All present nonces from the first gap up to the bound have been handed out, in order.
  ghost predicate AllPlaced(rows: seq<Entry>, firstGap: int, bound: int, emitted: seq<Renumbering>)
    requires rows != []
  {
    && |emitted| == |Below(rows, bound)| - |Below(rows, firstGap)|
    && forall k :: 0 <= k < |emitted| ==> emitted[k].nonce < bound && Placed(rows, firstGap, k, emitted[k])
  }

  lemma PlacedNext(rows: seq<Entry>, firstGap: int, i: int, emitted: seq<Renumbering>, e: Renumbering)
    requires rows != [] && AllPlaced(rows, firstGap, i, emitted)
    requires i in Present(rows) ==> e.nonce == i && Placed(rows, firstGap, |emitted|, e)
    ensures AllPlaced(rows, firstGap, i + 1, if i in Present(rows) then emitted + [e] else emitted)
  {
    BelowNext(rows, i);
  }

  /** The renumbering: from the first gap up to, and not including, the last nonce, every
      present nonce moves down to the place right after the one before it, starting at the
      first missing nonce. */
  method ProcessNonce(rows: seq<Entry>) returns (emitted: seq<Renumbering>, firstGap: int)
    requires Sorted(rows)
    ensures !HasGap(rows) ==> emitted == []
    ensures HasGap(rows) ==>
              IsFirstGap(rows, firstGap) && AllPlaced(rows, firstGap, rows[|rows| - 1].nonce, emitted)
  {
    emitted, firstGap := [], 0;
    if rows == [] {
      return;
    }
    var lastNonce, gap, deltas, txs := Scan(rows);
    firstGap := gap;
    GapsAreInTable(rows, lastNonce, deltas);
    if deltas == map[] {
      return;
    }
    emitted := RenumberAll(rows, lastNonce, firstGap, deltas, txs);
  }

  method RenumberAll(ghost rows: seq<Entry>, lastNonce: int, firstGap: int, deltas: map<int, int>,
                     txs: map<int, string>)
    returns (emitted: seq<Renumbering>)
    requires rows != [] && DeltasSound(rows, lastNonce, deltas) && TxsSound(rows, txs)
    requires firstGap in deltas && rows[0].nonce < firstGap <= lastNonce
    ensures AllPlaced(rows, firstGap, lastNonce, emitted)
  {
    emitted := [];
    var delta := 0;
    for i := firstGap to lastNonce
      invariant i > firstGap && i - 1 in Present(rows) ==> delta == Missing(rows, i - 1)
      invariant AllPlaced(rows, firstGap, i, emitted)
    {
      DeltaAtNonce(rows, i, lastNonce, firstGap, deltas, delta);
      if i in deltas {
        delta := deltas[i];
      }
      TxsHavePresent(rows, txs, i);
      var e := Renumbering(i, i, "");
      if i in txs {
        e := Renumber(rows, txs, i, delta, firstGap);
        PlacedNext(rows, firstGap, i, emitted, e);
        emitted := emitted + [e];
      } else {
        PlacedNext(rows, firstGap, i, emitted, e);
      }
    }
  }

  // One transaction: its new nonce, and the details that go with it.
  method Renumber(ghost rows: seq<Entry>, txs: map<int, string>, i: int, delta: int, ghost firstGap: int)
    returns (e: Renumbering)
    requires rows != [] && TxsSound(rows, txs) && i in txs && i in Present(rows) && delta == Missing(rows, i) &&
             firstGap <= i
    ensures e.nonce == i
    ensures Placed(rows, firstGap, |Below(rows, i)| - |Below(rows, firstGap)|, e)
  {
    var newNonce := i - delta;
    var details := txs[i];
    TxsHavePresent(rows, txs, newNonce);
    if newNonce in txs {
      details := txs[newNonce];
    }
    e := Renumbering(i, newNonce, details);
  }

  lemma TxsHavePresent(rows: seq<Entry>, txs: map<int, string>, n: int)
    requires TxsSound(rows, txs)
    ensures n in txs <==> n in Present(rows)
    ensures n in txs ==> Latest(rows, n) == Some(txs[n])
  {
    LatestOfPresent(rows, n);
  }

  // The running delta is what is missing up to every present nonce the loop reaches.
  lemma DeltaAtNonce(rows: seq<Entry>, i: int, lastNonce: int, firstGap: int, deltas: map<int, int>, delta: int)
    requires rows != [] && DeltasSound(rows, lastNonce, deltas) && rows[0].nonce < firstGap <= i < lastNonce
    requires firstGap in deltas
    requires i > firstGap && i - 1 in Present(rows) ==> delta == Missing(rows, i - 1)
    ensures i in Present(rows) ==> (if i in deltas then deltas[i] else delta) == Missing(rows, i)
  {
    if i in Present(rows) && i !in deltas {
      MissingAlongRun(rows, i - 1);
    }
  }

  lemma GapsAreInTable(rows: seq<Entry>, lastNonce: int, deltas: map<int, int>)
    requires Sorted(rows) && rows != [] && lastNonce == rows[|rows| - 1].nonce && DeltasSound(rows, lastNonce, deltas)
    ensures HasGap(rows) <==> deltas != map[]
  {
    if n :| IsGap(rows, n) {
      NothingAbove(rows, n);
      assert n in deltas;
    } else if forall n :: n !in deltas {
      assert deltas == map[];
    }
  }

  lemma NothingAbove(rows: seq<Entry>, n: int)
    requires Sorted(rows) && n in Present(rows)
    ensures n <= rows[|rows| - 1].nonce
  {
  }

  // ----- what the renumbering means -----

  /** The first new nonce is the first one missing: every nonce from the start up to it is
      present, and neither it nor anything from there up to the gap is. */
  lemma CompactionStartsAtFirstMissing(rows: seq<Entry>, gap: int)
    requires rows != [] && Sorted(rows) && IsFirstGap(rows, gap)
    ensures var first := rows[0].nonce + |Below(rows, gap)|;
            && first < gap && first !in Present(rows)
            && (forall n | rows[0].nonce <= n < first :: n in Present(rows))
            && (forall n | first <= n < gap :: n !in Present(rows))
  {
    var m := rows[0].nonce;
    assert rows[0] in rows;
    FirstIsLowest(rows);
    BelowNext(rows, m);
    m := m + 1;
    while m in Present(rows)
      invariant rows[0].nonce < m < gap
      invariant forall n | rows[0].nonce <= n < m :: n in Present(rows)
      invariant |Below(rows, m)| == m - rows[0].nonce
      decreases gap - m
    {
      BelowNext(rows, m);
      m := m + 1;
    }
    forall n | m <= n < gap ensures n !in Present(rows) {
      RunStaysBroken(rows, gap, m, n);
    }
    BelowOverGap(rows, m, gap);
  }

  // Once a nonce is missing below the first gap, everything up to the gap is missing.
  lemma {:induction false} RunStaysBroken(rows: seq<Entry>, gap: int, m: int, n: int)
    requires rows != [] && IsFirstGap(rows, gap) && rows[0].nonce < m <= n < gap && m !in Present(rows)
    ensures n !in Present(rows)
    decreases n
  {
    if m == n {
    } else {
      RunStaysBroken(rows, gap, m, n - 1);
      assert !IsGap(rows, n);
    }
  }

  /** The map from old to new nonces is strictly increasing and never moves a nonce up. */
  lemma CompactionKeepsOrder(rows: seq<Entry>, n: int, m: int)
    requires rows != [] && Sorted(rows) && n in Present(rows) && n < m
    ensures rows[0].nonce + |Below(rows, n)| < rows[0].nonce + |Below(rows, m)|
    ensures rows[0].nonce + |Below(rows, n)| <= n
  {
    assert Below(rows, n) + {n} <= Below(rows, m);
    SubsetIsSmaller(Below(rows, n) + {n}, Below(rows, m));
    FirstIsLowest(rows);
    BelowIsBounded(rows, n);
  }

  lemma {:induction false} BelowIsBounded(rows: seq<Entry>, n: int)
    requires rows != [] && Sorted(rows) && n >= rows[0].nonce
    ensures |Below(rows, n)| <= n - rows[0].nonce
    decreases n
  {
    if n == rows[0].nonce {
      FirstIsLowest(rows);
    } else {
      BelowIsBounded(rows, n - 1);
      BelowNext(rows, n - 1);
    }
  }

  // From the first gap on, the new nonce is a lower one.
  lemma {:induction false} CompactionMovesDown(rows: seq<Entry>, gap: int, n: int)
    requires rows != [] && Sorted(rows) && IsFirstGap(rows, gap) && gap <= n
    ensures rows[0].nonce + |Below(rows, n)| < n
    decreases n
  {
    BelowNext(rows, n - 1);
    if n == gap {
      BelowIsBounded(rows, gap - 1);
    } else {
      CompactionMovesDown(rows, gap, n - 1);
    }
  }

  // Transactions of different nonces are different.
  ghost predicate NoncesAreSigned(rows: seq<Entry>) {
    forall e, f | e in rows && f in rows && e.signed == f.signed :: e.nonce == f.nonce
  }

  lemma {:induction false} LatestIsRow(rows: seq<Entry>, n: int)
    ensures Latest(rows, n).Some? ==> exists e :: e in rows && e.nonce == n && e.signed == Latest(rows, n).value
  {
    if rows == [] {
    } else {
      var last := rows[|rows| - 1];
      LatestIsRow(rows[..|rows| - 1], n);
      assert last in rows;
    }
  }

  lemma LatestTellsNoncesApart(rows: seq<Entry>, n: int, m: int)
    requires NoncesAreSigned(rows) && Latest(rows, n).Some? && Latest(rows, n) == Latest(rows, m)
    ensures n == m
  {
    LatestIsRow(rows, n);
    LatestIsRow(rows, m);
  }

  lemma {:induction false} DetailsOfPlaced(rows: seq<Entry>, gap: int, k: int, e: Renumbering)
    requires rows != [] && Sorted(rows) && NoncesAreSigned(rows) && IsFirstGap(rows, gap) && Placed(rows, gap, k, e)
    ensures Some(e.details) == Latest(rows, e.nonce) <==> rows[0].nonce + |Below(rows, e.nonce)| !in Present(rows)
  {
    CompactionMovesDown(rows, gap, e.nonce);
    LatestOfPresent(rows, e.nonce);
    if Latest(rows, e.newNonce) == Latest(rows, e.nonce) {
      LatestTellsNoncesApart(rows, e.newNonce, e.nonce);
    }
  }

  /** Of the transactions that the repair sends out, one goes with its own details exactly if no
      row has the nonce it moves to, which is the start plus the present nonces below its own.
      The first one always does. */
  lemma {:induction false} DetailsAreOwnExactly(rows: seq<Entry>, gap: int, emitted: seq<Renumbering>, k: nat)
    requires rows != [] && Sorted(rows) && NoncesAreSigned(rows) && IsFirstGap(rows, gap)
    requires AllPlaced(rows, gap, rows[|rows| - 1].nonce, emitted) && k < |emitted|
    ensures var n := emitted[k].nonce;
            Some(emitted[k].details) == Latest(rows, n) <==> rows[0].nonce + |Below(rows, n)| !in Present(rows)
    ensures k == 0 ==> Some(emitted[k].details) == Latest(rows, emitted[k].nonce)
  {
    DetailsOfPlaced(rows, gap, k, emitted[k]);
    CompactionStartsAtFirstMissing(rows, gap);
  }

  /** Of the nonces 0, 2, 3 and 4 the repair moves 2 to 1 and 3 to 2, and sends for the second
      the details of the transaction that had nonce 2. */
  lemma OccupantIsSent(a: string, b: string, c: string, d: string, emitted: seq<Renumbering>)
    requires AllPlaced([Entry(0, a), Entry(2, b), Entry(3, c), Entry(4, d)], 2, 4, emitted)
    ensures emitted == [Renumbering(2, 1, b), Renumbering(3, 2, b)]
  {
    var rows := [Entry(0, a), Entry(2, b), Entry(3, c), Entry(4, d)];
    FourNonces(a, b, c, d);
    assert Placed(rows, 2, 0, emitted[0]) && Placed(rows, 2, 1, emitted[1]);
  }

  lemma FourNonces(a: string, b: string, c: string, d: string)
    ensures var rows := [Entry(0, a), Entry(2, b), Entry(3, c), Entry(4, d)];
            && Present(rows) == {0, 2, 3, 4} && Latest(rows, 2) == Some(b)
            && |Below(rows, 2)| == 1 && |Below(rows, 3)| == 2 && |Below(rows, 4)| == 3
  {
    var rows := [Entry(0, a), Entry(2, b), Entry(3, c), Entry(4, d)];
    assert rows[0] in rows && rows[1] in rows && rows[2] in rows && rows[3] in rows;
    assert Below(rows, 2) == {0} && Below(rows, 3) == {0, 2} && Below(rows, 4) == {0, 2, 3};
    assert rows[..3] == [rows[0], rows[1], rows[2]] && rows[..3][..2] == [rows[0], rows[1]];
    assert Latest(rows[..3][..2], 2) == Some(b);
    assert Latest(rows[..3], 2) == Some(b);
  }

  lemma EmittedIsRun(rows: seq<Entry>, gap: int, bound: int, emitted: seq<Renumbering>, n: int)
    requires rows != [] && AllPlaced(rows, gap, bound, emitted)
    ensures (exists e :: e in emitted && e.newNonce == n) <==>
            rows[0].nonce + |Below(rows, gap)| <= n < rows[0].nonce + |Below(rows, bound)|
  {
    var start := rows[0].nonce + |Below(rows, gap)|;
    if start <= n < start + |emitted| {
      assert Placed(rows, gap, n - start, emitted[n - start]);
    }
    if e :| e in emitted && e.newNonce == n {
      var k :| 0 <= k < |emitted| && emitted[k] == e;
      assert Placed(rows, gap, k, e);
    }
  }

  // The nonces in the queue once every transaction sent out has been registered at its new nonce:
  // the rows that were there stay.
  function AfterRepair(rows: seq<Entry>, emitted: seq<Renumbering>): set<int> {
    Present(rows) + set e | e in emitted :: e.newNonce
  }

  // Every nonce from the first to the last is there.
  ghost predicate Closed(nonces: set<int>, first: int, last: int) {
    forall n | first <= n <= last :: n in nonces
  }

  /** The repair adds the nonces up to as many past the first as there are present ones below the
      last, so it closes all gaps exactly if none is missing from there on. */
  lemma RepairClosesGapsExactly(rows: seq<Entry>, gap: int, emitted: seq<Renumbering>)
    requires rows != [] && Sorted(rows) && IsFirstGap(rows, gap)
    requires AllPlaced(rows, gap, rows[|rows| - 1].nonce, emitted)
    ensures var first, last := rows[0].nonce, rows[|rows| - 1].nonce;
            var next := first + |Below(rows, last)|;
            && next < last
            && (forall n :: n in AfterRepair(rows, emitted) <==> n in Present(rows) || first <= n < next)
            && (Closed(AfterRepair(rows, emitted), first, last) <==> forall n | next <= n < last :: n in Present(rows))
  {
    var first, last := rows[0].nonce, rows[|rows| - 1].nonce;
    var next := first + |Below(rows, last)|;
    NothingAbove(rows, gap);
    CompactionMovesDown(rows, gap, last);
    forall n ensures n in AfterRepair(rows, emitted) <==> n in Present(rows) || first <= n < next {
      NonceAfterRepair(rows, gap, emitted, n);
    }
    assert rows[|rows| - 1] in rows;
    ClosedExactly(Present(rows), AfterRepair(rows, emitted), first, next, last);
  }

  lemma NonceAfterRepair(rows: seq<Entry>, gap: int, emitted: seq<Renumbering>, n: int)
    requires rows != [] && Sorted(rows) && IsFirstGap(rows, gap)
    requires AllPlaced(rows, gap, rows[|rows| - 1].nonce, emitted)
    ensures n in AfterRepair(rows, emitted) <==>
            n in Present(rows) || rows[0].nonce <= n < rows[0].nonce + |Below(rows, rows[|rows| - 1].nonce)|
  {
    CompactionStartsAtFirstMissing(rows, gap);
    EmittedIsRun(rows, gap, rows[|rows| - 1].nonce, emitted, n);
  }

  lemma ClosedExactly(before: set<int>, after: set<int>, first: int, next: int, last: int)
    requires first <= next < last && last in before
    requires forall n :: n in after <==> n in before || first <= n < next
    ensures Closed(after, first, last) <==> forall n | next <= n < last :: n in before
  {
    if Closed(after, first, last) {
      forall n | next <= n < last ensures n in before {
        assert n in after;
      }
    }
  }

  /** Of the nonces 0, 2 and 3 the repair sends out one transaction, for 1, and no gap is left. */
  lemma RepairClosesGap(a: string, b: string, c: string, emitted: seq<Renumbering>)
    requires AllPlaced([Entry(0, a), Entry(2, b), Entry(3, c)], 2, 3, emitted)
    ensures emitted == [Renumbering(2, 1, b)]
    ensures AfterRepair([Entry(0, a), Entry(2, b), Entry(3, c)], emitted) == {0, 1, 2, 3}
  {
    var rows := [Entry(0, a), Entry(2, b), Entry(3, c)];
    ThreeNonces(0, a, 2, b, 3, c);
    assert Placed(rows, 2, 0, emitted[0]);
  }

  /** Of the nonces 0, 5 and 6 it sends out one transaction too, and 2, 3 and 4 stay missing. */
  lemma RepairLeavesGap(a: string, b: string, c: string, emitted: seq<Renumbering>)
    requires AllPlaced([Entry(0, a), Entry(5, b), Entry(6, c)], 5, 6, emitted)
    ensures emitted == [Renumbering(5, 1, b)]
    ensures AfterRepair([Entry(0, a), Entry(5, b), Entry(6, c)], emitted) == {0, 1, 5, 6}
  {
    var rows := [Entry(0, a), Entry(5, b), Entry(6, c)];
    ThreeNonces(0, a, 5, b, 6, c);
    assert Placed(rows, 5, 0, emitted[0]);
  }

  lemma ThreeNonces(m: nat, a: string, n: nat, b: string, l: nat, c: string)
    requires m < n < l
    ensures var rows := [Entry(m, a), Entry(n, b), Entry(l, c)];
            && Present(rows) == {m, n, l} && Latest(rows, n) == Some(b)
            && |Below(rows, n)| == 1 && |Below(rows, l)| == 2
  {
    var rows := [Entry(m, a), Entry(n, b), Entry(l, c)];
    assert rows[0] in rows && rows[1] in rows && rows[2] in rows;
    assert Below(rows, n) == {m} && Below(rows, l) == {m, n};
    assert rows[..2] == [rows[0], rows[1]];
    assert Latest(rows[..2], n) == Some(b);
  }
}
