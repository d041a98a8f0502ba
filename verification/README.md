# A verified model of the cic-stack custodial transaction queue

The project models the part of cic-stack that decides which nonce a custodial transaction gets,
when it is sent, retried, shifted, renumbered or closed, what it does to pending balances, and how
the transaction index of cic-cache is built, scanned and collated. It proves properties of that
model with Dafny 4.11: `dafny verify dfyconfig.toml` checks everything.

## The modules

- `Nonces`, `Tasks`: the nonce counters and reservations as one session changes them, and the two
  tasks of a transfer (reserve a nonce; release it, queue the transaction, commit both or neither).
- `Protocol`: the same tasks as interleaved steps of many workers, with private uncommitted writes,
  the row lock on the counter, lost inserts, aborts, changing QUEUE locks, and rows added by resends and nonce
  shifts. The main results are accounting over every run, and the equality of each commit with one
  uninterrupted call of the sequential function.
- `Locks`: the lock table and its history.
- `Queue`, `Balances`: queue rows with status bits and cache rows, and the pending balances.
- `Pending`: the conservation of pending value over whole runs of the queue.
- `Shift`: cancel-and-renumber with one commit per replacement.
- `Resend`: the straggler filter and the price escalation.
- `Refill`: the amount of gas refills over runs.
- `Dispatch`: lowest nonce per sender, reserve, repeat.
- `Retry`: cut-off, nonce checker and batch limit of the retrier.
- `Compaction`: the gap scan and renumbering of the nonce repair tool.
- `Cleanup`: the final status rewrite of the audit tool.
- `Paging`, `Bloom`: cic-cache lists and Bloom filters, and the scan of cic-eth that reads them.
- `Keys`, `Collate`: decimal string keys and the merge that sorts by them.
- `Sorting`, `Basics`: shared definitions.

## Where the code does not do what it promises

Each of these is proved with the exact condition under which the promise holds.

- The QUEUE lock is checked before the row is committed, so a transfer or resend that is past its
  check adds its row after the lock was set. The lock holds exactly if none was (`Protocol.QueueLockHoldsExactly`).
- A reservation read by two open sessions is spent twice: the second waits for the first to commit its
  delete, goes on without the row, and commits if its transaction is a different one
  (`Protocol.SharedKeySpendsTwice`). The account of nonces balances in all
  states exactly if no transfer commits after its reservation has gone
  (`Protocol.AccountedExactlyWhenNeverStale`); one task per key at a time ensures it.
- `shift_nonce` picks up dead rows too and brings them back to life; no nonce ends with two live
  transactions exactly if the rows picked up have different nonces (`Shift.ShiftKeepsOneLiveExactly`,
  `Shift.DeadRowComesBack`).
  A copy that is in the queue already, or a row the library refuses to cancel, stops the shift half
  way (`Shift.Shifter.ShiftNonce`). The cancellation is committed only together with a replacement:
  a sender's last transaction stays live (`Shift.ShiftTakesEffectExactly`,
  `Shift.CancelledExactlyWhenMoved`, `Shift.OnlyTransactionStaysLive`).
- A refill whose cache row is not recorded is not seen by the next one, and both carry the safe
  amount (`Refill.RefillKeepsOneSafeExactly`, `Refill.TwoRefillsBeforeCache`); so do a live refill and a
  dead one that a shift or a forced resend brings back (`Refill.OneSafeExactlyWhenNoneDoubles`,
  `Refill.DeadRefillDoubles`).
- A SEND lock on one chain holds a sender back exactly if every lock row of the address, on whatever
  chain, has the bit (`Dispatch.SendLockHoldsExactly`), since the join is on the address alone; a
  QUEUE lock on a second chain lets the sender through (`Dispatch.LockOnSecondChainLetsThrough`), during
  a nonce shift too (`Shift.ShiftHoldsBackSender`).
- The nonce repair sends, for a renumbered transaction, the details of the transaction that
  occupies its new nonce, if there is one (`Compaction.DetailsAreOwnExactly`, `Compaction.OccupantIsSent`). It adds
  rows and takes none away, and stops before the last: all gaps are closed exactly under the condition
  of `Compaction.RepairClosesGapsExactly` (`Compaction.RepairClosesGap` and `Compaction.RepairLeavesGap`
  are an input of either kind).
- The audit leaves a final network row without FINAL if the queue has it in the network and no error
  is recorded (`Cleanup.NetworkRowIsFinalExactly`, `Cleanup.NetworkRowStaysOpen`).
- The scan is documented to include the highest block and excludes it (`Bloom.IndexAgreesWithList`).
- Collated transactions are sorted by time as strings (`Collate.ChronologicalExactly`).
- An upper block bound without a lower one is not looked at (`Paging.UpperBoundKeptExactly`,
  `Paging.UpperBoundAloneIsIgnored`).
- The retrier limits each query to the room in the batch before it filters, so transactions that wait
  for an earlier nonce take up the room of ready ones behind them. A pass fills its batch or misses
  nothing exactly under the condition of `Retry.NothingStrandedExactly`;
  `Retry.StrandedBehindFront` is a set in which a ready transaction is never seen.
- The retrier's warning says that it does nothing until the tracker is seen; it goes on. It reads the
  clock in UTC and converts it as local time: the cut-off never passes the tracker's second exactly if
  local time is not ahead of UTC (`Retry.CutOffNeverPassesTrackerExactly`), and in UTC it can pass the
  start of that second by a fraction (`Retry.CutOffPassesByFraction`).

## Assumptions

- The database isolates sessions at the level of committed reads: a session sees what others have
  committed and its own writes. Two inserts of one counter row wait for each other, and the second
  fails if the first commits. A delete of a row that another session has deleted waits for that
  session, and finding the row gone is a warning, not an error. A session that is rolled back or
  closed loses everything since its last commit.
- A status is a set of distinct bits; a row is dead if it has FINAL or OBSOLETE. `set_cancel` makes a
  row dead, `set_reserved` takes it out of QUEUED, `obsolete_by_cache` sets OBSOLETE and takes it out
  of QUEUED and RESERVED, and `set_fubar` sets FINAL and UNKNOWN_ERROR. None of them commits by itself.
- `TxCache.clone` copies sender, recipient, tokens and values, and persists the copy.
- A transaction hash is injective in the fields of the transaction, and unique in the queue.
- A Bloom filter is a bit array with a number of opaque hash positions per entry. The two filters of a
  request have the same length; what the library makes of data of another length is not modelled.
- What the nonce repair sends out has been registered; where a row has the new nonce already, that row
  stays. A resend by hand leaves its original as it is, unless the library closes it.
- A queue row that `refill_gas` creates is persisted by the library: the task itself does not commit.
- The network, the clock and its time zone, signing, and the state changes that the queue library
  refuses are parameters.
- A stalled-transaction query returns rows in an order of its own, at most as many as its limit; the
  limit 0 means no limit.

## Model

| member | source | states |
|---|---|---|
| Nonces.Session.Init | apps/cic-eth/cic_eth/db/models/nonce.py:77-90 | a counter is created once; an existing one is an error and stays |
| Nonces.Session.Increment | apps/cic-eth/cic_eth/db/models/nonce.py:58-69 | the value before the increment is handed out and the row is one higher |
| Nonces.Session.NextNonce | apps/cic-eth/cic_eth/db/models/nonce.py:94-132 | the existing counter or the initial value is handed out, and the counter follows it |
| Nonces.Session.Next | apps/cic-eth/cic_eth/db/models/nonce.py:190-209 | refused during an active reservation of the key, else one nonce is reserved under it |
| Nonces.Session.ReleaseKey | apps/cic-eth/cic_eth/db/models/nonce.py:165-187 | the reserved nonce is returned and its row deleted; an unknown key is an error |
| Nonces.ReleaseGivesReservedNonce | apps/cic-eth/cic_eth/db/models/nonce.py:165-209 | reserve then release returns the reserved nonce and leaves only the counter one higher |
| Tasks.Database.ReserveNonce | apps/cic-eth/cic_eth/eth/nonce.py:51-82 | the committed tables after the task, or no change if the key is active |
| Tasks.Database.QueueCreate | apps/cic-eth/cic_eth/queue/tx.py:41-56 | no row while the lock row of the holder or the global one has QUEUE, or if a row has the same sender, nonce and content; else exactly one |
| Tasks.Database.Transfer | apps/cic-eth/cic_eth/eth/erc20.py:234-257 | goes through exactly if the nonce is reserved, no lock row has QUEUE and no row has this sender, nonce and content; nonce released and transaction queued together, or neither |
| Tasks.SamePaymentAtTwoNonces | apps/cic-eth/cic_eth/queue/tx.py:52 | one content at two reserved nonces is queued twice |
| Tasks.ReserveThenTransfer | apps/cic-eth/cic_eth/eth/nonce.py:40-82 | under exclusive keys, from nothing, a reserved nonce is spent on one queued transaction |
| Tasks.ReserveAsRun | apps/cic-eth/cic_eth/eth/nonce.py:73-80 | the interleaved steps of a reservation, run alone, do what the task does |
| Tasks.TransferAsRun | apps/cic-eth/cic_eth/eth/erc20.py:234-257 | the interleaved steps of a transfer, run alone on a reservation no other session has deleted, do what the task does, also when it fails |
| Protocol.CommitReserveIsAtomic | apps/cic-eth/cic_eth/db/models/nonce.py:95-132 | whatever ran in between, a committed reservation equals one uninterrupted call at commit time |
| Protocol.CommitTransferIsAtomic | apps/cic-eth/cic_eth/eth/nonce.py:40-48 | whatever ran in between, a committed transfer equals one uninterrupted release plus one queue row, or nothing if its transaction is in the queue |
| Protocol.StepKeepsInvariant | apps/cic-eth/cic_eth/db/models/nonce.py:95-209 | every step under exclusive keys keeps the accounting and the soundness of all open sessions |
| Protocol.RunKeepsInvariant | apps/cic-eth/cic_eth/db/models/nonce.py:95-209 | so does every run |
| Protocol.NoncesAccountedFor | apps/cic-eth/cic_eth/db/models/nonce.py:18-209 | over every interleaving the reserved and queued nonces are the range from the initial counter to the counter, each in one place once |
| Protocol.ReservedNonceIsNeverRefused | apps/cic-eth/cic_eth/eth/erc20.py:255-256 | under exclusive keys, while only transfers add rows, a transfer past the lock check with its reserved nonce always goes through |
| Protocol.CommitGoesThroughExactly | apps/cic-eth/cic_eth/queue/tx.py:52 | a commit adds its row exactly if no row has its sender, nonce and content |
| Protocol.ReservationLockIsExclusive | apps/cic-eth/cic_eth/db/models/nonce.py:182-183 | over every run, no two sessions hold one deleted reservation |
| Protocol.AccountedExactlyWhenNeverStale | apps/cic-eth/cic_eth/db/models/nonce.py:165-187 | with shared keys too, the account balances always exactly if no transfer commits after its reservation has gone |
| Protocol.SharedKeySpendsTwice | apps/cic-eth/cic_eth/db/models/nonce.py:166-187 | a run in which two sessions on one key, with different transactions, queue one nonce twice, the second waiting for the delete of the first |
| Protocol.ShutGateHolds | apps/cic-eth/cic_eth/queue/tx.py:47-52 | with the QUEUE lock set and nothing in flight, only shifts add rows of the sender in any run without unlocking |
| Protocol.QueueLockHoldsExactly | apps/cic-eth/cic_eth/queue/tx.py:47-52 | only shifts add rows of the sender until unlocked exactly if no new transfer or resend was past its check |
| Protocol.GatedExactly | apps/cic-eth/cic_eth/queue/tx.py:47-50 | the check stops a transfer exactly if the global row or the row of the address has QUEUE |
| Protocol.LockStepsMoveTheGate | apps/cic-eth/cic_eth/admin/ctrl.py:76-144 | setting QUEUE shuts the gate of the address, resetting it opens it if the global row does not shut it |
| Locks.Store.SetFlags | apps/cic-eth/cic_eth/db/models/lock.py:39-89 | the flags are added to the row of the chain and address, created if needed |
| Locks.Store.ResetFlags | apps/cic-eth/cic_eth/db/models/lock.py:92-133 | the flags are taken off, and a row left without bits is deleted |
| Locks.Store.CheckFlags | apps/cic-eth/cic_eth/db/models/lock.py:136-170 | the flags if the row has all of them, else nothing |
| Locks.Store.CheckBoth | apps/cic-eth/cic_eth/db/models/lock.py:173-185 | the global row and the row of the address together |
| Locks.HistoryDecidesBits | apps/cic-eth/cic_eth/db/models/lock.py:39-133 | after any calls a bit is on exactly if the last call that mentions it was a set |
| Locks.RowExistsWhileBitOn | apps/cic-eth/cic_eth/db/models/lock.py:81-131 | a row exists exactly while one of its bits is on, if no set call is empty |
| Locks.CheckFollowsHistory | apps/cic-eth/cic_eth/db/models/lock.py:136-170 | a check answers all of the flags exactly if the history leaves all of them on |
| Locks.UnlockUndoesLock | apps/cic-eth/cic_eth/admin/ctrl.py:76-144 | unlocking gives back the table from before the lock |
| Locks.AggregateHoldsBack | apps/cic-eth/cic_eth/admin/ctrl.py:148-164 | an address is held back exactly if the global row or its own has every flag |
| Balances.BalanceOutgoing | apps/cic-eth/cic_eth/queue/balance.py:25-40 | the sum over the holder's live rows in the source token |
| Balances.BalanceIncoming | apps/cic-eth/cic_eth/queue/balance.py:64-81 | the sum over the recipient's live rows in the destination token |
| Balances.RowCountsExactly | apps/cic-eth/cic_eth/queue/balance.py:25-81 | a row counts on either side exactly with a cache row of that holder and token and neither FINAL nor OBSOLETE |
| Balances.MinedRowCarriesNothing | apps/cic-eth/cic_eth/queue/balance.py:33-38 | a mined or failed row is pending no more |
| Balances.TotalsCountEachRowOnce | apps/cic-eth/cic_eth/queue/balance.py:25-81 | summed over all holders every live row is counted once on each side |
| Balances.PendingValueConserved | apps/cic-eth/cic_eth/eth/erc20.py:396-413 | for transfers, outgoing over all holders equals incoming over all holders |
| Pending.StepKeepsTransfers | apps/cic-eth/cic_eth/eth/erc20.py:396-413 | registering, recording, any change of status, retries, resends and shifts keep a queue one of transfers |
| Pending.ValueConservedInEveryState | apps/cic-eth/cic_eth/queue/balance.py:25-81 | outgoing equals incoming over all holders in every state that a run from the empty queue reaches |
| Pending.PendingUntilMined | apps/cic-eth/cic_eth/queue/balance.py:25-81 | a transfer is pending on both sides from its cache row until it is mined |
| Shift.Shifter.Replace | apps/cic-eth/cic_eth/admin/nonce.py:88-123 | one copy queued at the lower nonce and higher price, its original cancelled; fails if the copy is there already or the cancellation is refused |
| Shift.Shifter.ShiftNonce | apps/cic-eth/cic_eth/admin/nonce.py:63-129 | locks, every commit, the gas total, exactly when a collision or a refusal stops it, what is committed in the end; a clean shift by one has one rising hole in every commit |
| Shift.MovesDoneSoFar | apps/cic-eth/cic_eth/admin/nonce.py:88-127 | what every row is after any number of replacements |
| Shift.CommittedFieldByField | apps/cic-eth/cic_eth/admin/nonce.py:96-123 | each committed copy has the sender, gas, recipient, value, data and cache row of its original, a nonce delta lower and a price one higher; originals are dead and else as they were |
| Shift.GasTotalAddsUp | apps/cic-eth/cic_eth/admin/nonce.py:96-99 | every transaction moved adds its price raised by one times its gas |
| Shift.ShiftKeepsUnique | apps/cic-eth/cic_eth/admin/nonce.py:113-118 | no transaction is ever in the queue twice |
| Shift.HoleMovesUp | apps/cic-eth/cic_eth/admin/nonce.py:75-127 | at every commit exactly one hole and never two live of one nonce; the hole moves up by one and ends past the range |
| Shift.ShiftTakesEffectExactly | apps/cic-eth/cic_eth/admin/nonce.py:75-129 | the live nonces become the range without its last one exactly if a later transaction was there to move |
| Shift.CancelledExactlyWhenMoved | apps/cic-eth/cic_eth/admin/nonce.py:75-129 | on any queue, the transaction to cancel ends dead exactly if some row was moved |
| Shift.OnlyTransactionStaysLive | apps/cic-eth/cic_eth/admin/nonce.py:75-129 | a clean shift of a sender's only transaction, which commits nothing |
| Shift.ShiftKeepsPayload | apps/cic-eth/cic_eth/admin/nonce.py:96-123 | once anything was moved, each committed live transaction from the offset on has gas, recipient, value, data and cache row of the live one of the next nonce, and a price one higher |
| Shift.ShiftKeepsTransfers | apps/cic-eth/cic_eth/admin/nonce.py:113-123 | a queue of transfers stays one through every replacement |
| Shift.ShiftKeepsOneLiveExactly | apps/cic-eth/cic_eth/admin/nonce.py:77-83 | on any queue, no nonce ends with two live transactions exactly if the selected rows have different nonces |
| Shift.DeadRowComesBack | apps/cic-eth/cic_eth/admin/nonce.py:77-83 | a queue on which a completed shift makes a dead row live beside another of its nonce |
| Shift.RefusingDeadRowsKeepsOneLive | apps/cic-eth/cic_eth/admin/nonce.py:121 | if dead rows cannot be cancelled, a completed shift never leaves two live transactions of one nonce |
| Shift.ShiftBalances | apps/cic-eth/cic_eth/admin/nonce.py:113-127 | at every commit the pending balances are those before, less the cancelled transaction's, plus what the moved dead rows carry; as before if nothing was moved |
| Shift.ShiftTakesOutOnlyTheCancelledExactly | apps/cic-eth/cic_eth/admin/nonce.py:113-129 | exactly when what is committed has lost only the cancelled transaction: the moved dead rows carry nothing, or, if no row was moved, neither does the cancelled one |
| Shift.ShiftHoldsBackSender | apps/cic-eth/cic_eth/admin/nonce.py:72-73 | the two locks hold back the sender's queueing, and its sending exactly if all its lock rows on other chains have SEND; nobody else is affected |
| Resend.Retrier.Filter | apps/cic-eth/cic_eth/runnable/daemons/filters/straggler.py:27-64 | touched, closed as failed, or obsoleted and scheduled, and when |
| Resend.Retrier.ResendWithHigherGas | apps/cic-eth/cic_eth/eth/gas.py:469-562 | one row more at the first free price of the escalation, or no change after ten attempts or a lock; it cannot run out of attempts with fewer rivals than that |
| Resend.PriceOfAttempt | apps/cic-eth/cic_eth/eth/gas.py:488-531 | the price of every attempt: one above the old price if the network is below it, else the factor times it, or the explicit one, times the factor at every attempt |
| Resend.EscalationRaisesPrice | apps/cic-eth/cic_eth/eth/gas.py:488-531 | no price is tried twice and all are above the old one |
| Resend.FewRivalsLeaveAFreePrice | apps/cic-eth/cic_eth/eth/gas.py:504-535 | with fewer queued transactions of the nonce than attempts, some attempt is free |
| Resend.StragglerKeepsBalancesExactly | apps/cic-eth/cic_eth/queue/balance.py:33-38 | a completed step leaves all pending balances as they were exactly if the old row was live or carried nothing |
| Resend.StragglerKeepsOneLiveExactly | apps/cic-eth/cic_eth/runnable/daemons/filters/straggler.py:49-63 | after the step at most one live transaction per sender and nonce, exactly if the replaced row had no live rival |
| Resend.StragglerKeepsTransfers | apps/cic-eth/cic_eth/eth/gas.py:562 | the replacement is a transfer row like its original |
| Resend.Retrier.Straggle | apps/cic-eth/cic_eth/runnable/daemons/filters/straggler.py:49-63 | filter and resend together leave the completed step that the lemmas above are about, or the obsoleted row alone |
| Refill.Gifter.RefillGas | apps/cic-eth/cic_eth/eth/gas.py:382-437 | safe amount plus what is asked for, or just that exactly if a row without FINAL and OBSOLETE has a cache row with this recipient and a value; or which failure, with nothing queued |
| Refill.OneMoreRow | apps/cic-eth/cic_eth/eth/gas.py:389-405 | rows for other recipients, dead ones and those without a value do not change the amount |
| Refill.FillsUntilClosed | apps/cic-eth/cic_eth/eth/gas.py:389-398 | a refill fills its recipient from its cache row until it is mined |
| Refill.OneSafeExactlyWhenNoneDoubles | apps/cic-eth/cic_eth/eth/gas.py:389-405 | over any run, retries, shifts and forced resends of dead rows included, at most one live refill of a recipient is safe in every state exactly if no step doubles one |
| Refill.OneSafeRefillAtATime | apps/cic-eth/cic_eth/eth/gas.py:389-405 | over any run that waits for cache rows and puts no refill beside a live one by retry, shift or resend, at most one live refill of a recipient carries the safe amount |
| Refill.RefillsAreBounded | apps/cic-eth/cic_eth/eth/gas.py:389-405 | the live refills carry at most the safe amount once plus what was asked for |
| Refill.RefillKeepsOneSafeExactly | apps/cic-eth/cic_eth/eth/gas.py:389-398 | exactly when one more refill keeps the bound, recorded or not |
| Refill.TwoRefillsBeforeCache | apps/cic-eth/cic_eth/eth/gas.py:389-398 | two refills before the first is recorded both carry the safe amount |
| Refill.DeadRefillDoubles | apps/cic-eth/cic_eth/api/admin.py:203-217 | a forced resend, a retry or a shift of a dead refill beside a live one makes two that are safe |
| Dispatch.Dispatcher.LowestNonces | apps/cic-eth/cic_eth/queue/query.py:139-162 | exactly the eligible senders, each with its lowest queued nonce |
| Dispatch.Dispatcher.PickRow | apps/cic-eth/cic_eth/queue/query.py:168-178 | of the rows with that nonce the one checked last |
| Dispatch.Dispatcher.GetUpcoming | apps/cic-eth/cic_eth/queue/query.py:117-202 | one transaction per eligible sender at its least queued nonce, and only those marked as checked |
| Dispatch.PickedExactly | apps/cic-eth/cic_eth/queue/query.py:139-171 | a sender is picked for exactly if it may send and has a row with QUEUED, and such a row of the least nonce is picked |
| Dispatch.Dispatcher.ProcessPicks | apps/cic-eth/cic_eth/runnable/daemons/dispatcher.py:77-120 | exactly the picked and not refused rows lose QUEUED and get RESERVED, and nothing else changes |
| Dispatch.Dispatcher.Loop | apps/cic-eth/cic_eth/runnable/daemons/dispatcher.py:123-142 | every round dispatches the lowest nonce of each eligible sender, dispatched nonces of a sender never go back, and after n rounds n rows less are queued |
| Dispatch.RoundTakesOne | apps/cic-eth/cic_eth/queue/query.py:166-198 | a round takes one row from each sender that may send and none from others |
| Dispatch.DrainsInAsManyRoundsAsRows | apps/cic-eth/cic_eth/runnable/daemons/dispatcher.py:123-142 | a sender's queue is empty after as many rounds as it had rows and not before |
| Dispatch.MaySendExactly | apps/cic-eth/cic_eth/queue/query.py:144-145 | a sender may not send exactly if it has lock rows and all have SEND |
| Dispatch.SendLockHoldsExactly | apps/cic-eth/cic_eth/queue/query.py:144-145 | a sender locked on some chain may not send exactly if all its lock rows have SEND |
| Dispatch.LockedSenderIsPassedOverExactly | apps/cic-eth/cic_eth/queue/query.py:139-162 | the same of the senders each round passes over |
| Dispatch.SendLockOnOneChain | apps/cic-eth/cic_eth/queue/query.py:144-145 | with lock rows on one chain a sender is passed over exactly while SEND is set |
| Dispatch.LockOnSecondChainLetsThrough | apps/cic-eth/cic_eth/queue/query.py:144-145 | a table in which a sender locked for sending is picked all the same |
| Retry.NonceChecker.Check | apps/cic-eth/cic_eth/sync/retry.py:55-73 | true exactly if the nonce is the one noted for the sender the first time it was asked |
| Retry.Retrier.ProcessSet | apps/cic-eth/cic_eth/sync/retry.py:155-166 | the matching ones of the transactions the query returned, in order, until the batch is full |
| Retry.Retrier.Process | apps/cic-eth/cic_eth/sync/retry.py:127-167 | cut-off; the matching ones of what each limited query returns; at most a batch over both sets |
| Retry.MatchingMeans | apps/cic-eth/cic_eth/sync/retry.py:66-73 | what is handed on is in the set and has its sender's confirmed nonce |
| Retry.HandedOnExactly | apps/cic-eth/cic_eth/sync/retry.py:55-73 | the n-th transaction is handed on exactly if it has the nonce answered for the first one of its sender |
| Retry.OneNoncePerSender | apps/cic-eth/cic_eth/sync/retry.py:58-73 | within a set all retried transactions of a sender share a nonce |
| Retry.SteadyNetworkHandsOnReady | apps/cic-eth/cic_eth/sync/retry.py:58-73 | while confirmed nonces stand still, a set hands on what has the confirmed nonce of its sender |
| Retry.NothingStrandedExactly | apps/cic-eth/cic_eth/sync/retry.py:146-166 | a pass fills its batch or misses nothing that is ready exactly if a query returns only ready rows to its limit or nothing behind the limits is ready |
| Retry.StrandedBehindFront | apps/cic-eth/cic_eth/sync/retry.py:151 | a set in which a ready transaction is not seen though the batch is empty |
| Retry.CutOffExactly | apps/cic-eth/cic_eth/sync/retry.py:129-142 | exactly now minus grace unless the tracker was last seen before that second, else grace before the tracker |
| Retry.CutOffKeepsGrace | apps/cic-eth/cic_eth/sync/retry.py:129-142 | never later than now minus the grace period, in any time zone |
| Retry.CutOffNeverPassesTrackerExactly | apps/cic-eth/cic_eth/sync/retry.py:130-142 | never in a later second than the tracker, at any time, exactly if local time is not ahead of UTC |
| Retry.CutOffPassesByFraction | apps/cic-eth/cic_eth/sync/retry.py:136-142 | in UTC, when exactly it is later than the start of the tracker's second |
| Compaction.Scan | apps/cic-eth/cic_eth/runnable/fix_nonce.py:120-154 | exactly the gaps with the number missing up to each, the first gap, and the last transaction of each nonce |
| Compaction.ProcessNonce | apps/cic-eth/cic_eth/runnable/fix_nonce.py:152-209 | each present nonce from the first gap up to the last one exclusive moves to the start plus the present nonces below it, consecutively |
| Compaction.CompactionStartsAtFirstMissing | apps/cic-eth/cic_eth/runnable/fix_nonce.py:137-161 | the first new nonce is the first one missing |
| Compaction.CompactionKeepsOrder | apps/cic-eth/cic_eth/runnable/fix_nonce.py:158-161 | the map is strictly increasing and moves no nonce up |
| Compaction.DetailsAreOwnExactly | apps/cic-eth/cic_eth/runnable/fix_nonce.py:169-207 | what is sent out goes with its own details exactly if no row has the nonce it moves to; the first always does |
| Compaction.OccupantIsSent | apps/cic-eth/cic_eth/runnable/fix_nonce.py:169-207 | a sequence in which another transaction's details are sent |
| Compaction.RepairClosesGapsExactly | apps/cic-eth/cic_eth/runnable/fix_nonce.py:156-209 | the nonces after the repair, and that no gap is left exactly if from the start plus the present nonces below the last one on none is missing |
| Compaction.RepairClosesGap | apps/cic-eth/cic_eth/runnable/fix_nonce.py:156-209 | 0, 2 and 3 become 0, 1, 2 and 3 |
| Compaction.RepairLeavesGap | apps/cic-eth/cic_eth/runnable/fix_nonce.py:156-209 | 0, 5 and 6 become 0, 1, 5 and 6 |
| Cleanup.Auditor.Rewrite | apps/cic-eth/cic_eth/runnable/clean.py:265-302 | the status of every row after the loop, and exactly the state changes logged |
| Cleanup.OnlyObsoleteIsCleared | apps/cic-eth/cic_eth/runnable/clean.py:271-288 | no bit but OBSOLETE is cleared, and that only on the network row |
| Cleanup.NamedRowsAreClosed | apps/cic-eth/cic_eth/runnable/clean.py:284-288 | every other named row ends closed and obsolete unless it was exactly FINAL |
| Cleanup.NetworkRowEndsExactly | apps/cic-eth/cic_eth/runnable/clean.py:273-288 | the exact final status of the network row: what it gets, and that it loses OBSOLETE whenever it changes |
| Cleanup.NetworkRowIsFinalExactly | apps/cic-eth/cic_eth/runnable/clean.py:273-283 | exactly when the network row ends with FINAL |
| Cleanup.NetworkRowStaysOpen | apps/cic-eth/cic_eth/runnable/clean.py:276-282 | a network row that the audit leaves without it |
| Cleanup.TwoPassesSettle | apps/cic-eth/cic_eth/runnable/clean.py:265-300 | for any item list the third pass changes nothing |
| Cleanup.OnePassIsNotEnough | apps/cic-eth/cic_eth/runnable/clean.py:276-279 | a row that only the second pass settles |
| Paging.PagesMakeUpTheList | apps/cic-cache/cic_cache/db/list.py:12-41 | pages of any size make up the filtered and ordered list, each row once |
| Paging.RowListedExactly | apps/cic-cache/cic_cache/db/list.py:181-219 | a row is listed exactly if it has the account on either side and is within the bounds given |
| Paging.ListedInOrder | apps/cic-cache/cic_cache/db/list.py:29-41 | by block, then index, ascending or descending |
| Paging.PageExactly | apps/cic-cache/cic_cache/db/list.py:29-41 | a page is the part of the list from its offset, of its limit |
| Paging.OldestIsReverse | apps/cic-cache/cic_cache/db/list.py:29-41 | oldest first is the exact reverse |
| Paging.UpperBoundKeptExactly | apps/cic-cache/cic_cache/db/list.py:181-219 | the upper block bound is kept exactly if there is a lower one or nothing lies above |
| Paging.UpperBoundAloneIsIgnored | apps/cic-cache/cic_cache/db/list.py:181-219 | a list asked for up to block 5 that has block 6 |
| Bloom.LoadTransactions | apps/cic-cache/cic_cache/cache.py:39-111 | lowest and highest block of the page, every row found in both filters once rebuilt, and no bit set but those of listed rows |
| Bloom.FoundOnlyIfCovered | apps/cic-cache/cic_cache/cache.py:58-76 | a transaction is found exactly if listed ones cover all its bits; with an empty page none is |
| Bloom.KeysTellPositionsApart | apps/cic-cache/cic_cache/cache.py:71-74 | different blocks and positions are different entries |
| Bloom.Be32Reads | apps/cic-eth/cic_eth/ext/tx.py:107-114 | the four bytes, the highest first, make up the number |
| Bloom.RebuiltChecksExactly | apps/cic-eth/cic_eth/ext/tx.py:98-102 | a rebuilt filter has an entry exactly if the bits of all rounds it is told are set |
| Bloom.FilterSurvivesBytes | apps/cic-eth/cic_eth/ext/tx.py:98-102 | a filter rebuilt from its bytes is the filter |
| Bloom.AddedIsFound | apps/cic-cache/cic_cache/cache.py:71-74 | what was added is found |
| Bloom.AddKeepsFound | apps/cic-cache/cic_cache/cache.py:71-74 | adding loses nothing |
| Bloom.ScanBlock | apps/cic-eth/cic_eth/ext/tx.py:113-169 | the first transaction of the block that the filter has and that pays the account |
| Bloom.ListTxByBloom | apps/cic-eth/cic_eth/ext/tx.py:104-171 | exactly the reported transactions, one per block, blocks ascending, or an overflow |
| Bloom.IndexAgreesWithList | apps/cic-eth/cic_eth/ext/tx.py:106-169 | a listed transaction to the account gives a result for its block exactly if the block is below the highest |
| Keys.NumbersAsStrings | apps/cic-eth/cic_eth/ext/tx.py:216-223 | the smaller number comes first as a string exactly if, padded to the other's width, it is not above it |
| Keys.FirstDifferenceDecides | apps/cic-eth/cic_eth/ext/tx.py:221-223 | the first character that differs decides the order of two strings |
| Collate.KeyIsInjective | apps/cic-eth/cic_eth/ext/tx.py:216 | a key determines timestamp, sender and nonce |
| Collate.FillDict | apps/cic-eth/cic_eth/ext/tx.py:194-217 | one entry per key, the last one read |
| Collate.TxCollate | apps/cic-eth/cic_eth/ext/tx.py:178-238 | exactly the last verified entry of each key, strictly in the order of the keys; in order of time exactly if the listed timestamps pad |
| Collate.ListedExactly | apps/cic-eth/cic_eth/ext/tx.py:194-217 | an entry is listed exactly if it verifies and no later one has its timestamp, sender and nonce |
| Collate.TiesBySenderThenNonce | apps/cic-eth/cic_eth/ext/tx.py:216 | at one timestamp the order is by sender, then by nonce as a string |
| Collate.ChronologicalExactly | apps/cic-eth/cic_eth/ext/tx.py:221-226 | the list is in order of time exactly if, of what the batches list, every earlier timestamp, padded to a later one's width, is not above it |
| Collate.SameWidthIsChronological | apps/cic-eth/cic_eth/ext/tx.py:221-226 | in particular when all timestamps in the batches have the same number of digits |
| Collate.NineAfterTen | apps/cic-eth/cic_eth/ext/tx.py:221-226 | of 9 and 10, newest first, the 9 comes out first |

## Left out

- Calls to the network, signing, ABI and RLP encoding, the task queue, redis, HTTP servers, command lines.
- The internals of chainqueue, chainlib, chainsyncer and moolb, which are not part of this model; in
  particular that creating a queue row may obsolete other rows of the same nonce.
- `transfer_from`, `approve` and the other spending tasks, which reserve and release nonces the same way or,
  for `transfer_from`, for another address than the sender's.
- The lost update of two concurrent lock changes on one row: `Lock.set` and `Lock.reset` are single steps.
- The STICKY lock bit and a global SEND lock in the dispatcher's query: documented, not implemented.
- Statuses, recipients, `before` and limits other than the dispatcher's in `get_upcoming_tx`.
- The asynchronous steps after a shift or resend: the gas check, the unlocking, and setting the row ready.
- `check_gas` and `assemble_balances`: a comparison each and a dictionary merge.
- When the audit's changes are committed: a change of the manual bit alone waits for a later commit.
- Resend.FewRivalsLeaveAFreePrice: for a factor below 2 or a price of 0 every attempt may be the same
  transaction, so nothing is promised there; a fractional factor is not modelled.
- Classification of items and the network verification loop in `clean.py`: the item list and the network
  row are arbitrary inputs; dates and the log's dates are not modelled.
- Parsing and type dispatch in `fix_nonce.py`; its `offset` filter.
- `list_*_with_data*`: the same queries with more columns; tags.
- Token expansion and address normalisation in `tx_collate`; verification is a yes or no per entry.
- `apps/cic-meta`, the other applications, and the floating point of `server/converters.py`.
