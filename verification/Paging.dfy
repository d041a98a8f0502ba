/** The lists cic-cache reads from its table: filtered, ordered by block and index, in pages. */
module Paging {
  import opened Basics
  import opened Sorting

  // Where a transaction is in the chain; the two columns the queries select.
  datatype Position = Position(block: nat, index: nat)

  datatype TxRow = TxRow(position: Position, sender: Address, recipient: Address)

  // A bound of 0 counts as absent, like no bound at all.
  predicate Given(bound: Option<nat>) {
    bound.Some? && bound.value != 0
  }

  // The query: the account it is about, if any, and the range of blocks. The upper bound is
  // looked at only when there is a lower one.
  datatype Query = Query(account: Option<Address>, blockOffset: Option<nat>, blockLimit: Option<nat>) {
    predicate Wants(row: TxRow) {
      && (account.Some? ==> row.sender == account.value || row.recipient == account.value)
      && (Given(blockOffset) ==>
            row.position.block >= blockOffset.value && (Given(blockLimit) ==> row.position.block <= blockLimit.value))
    }
  }

  function Where(rows: seq<TxRow>, q: Query): seq<Position> {
    if rows == [] then []
    else (if q.Wants(rows[0]) then [rows[0].position] else []) + Where(rows[1..], q)
  }

  // May p come before p': ascending for the oldest first, descending otherwise.
  predicate Before(p: Position, p': Position, oldest: bool) {
    if oldest then p.block < p'.block || (p.block == p'.block && p.index <= p'.index)
    else p.block > p'.block || (p.block == p'.block && p.index >= p'.index)
  }

  function Direction(oldest: bool): Order<Position> {
    (p, p') => Before(p, p', oldest)
  }

  // LIMIT and OFFSET.
  function Page(ps: seq<Position>, offset: nat, limit: nat): seq<Position> {
    var from := if offset < |ps| then offset else |ps|;
    var to := if offset + limit < |ps| then offset + limit else |ps|;
    ps[from..to]
  }

  // The whole list the query is about, in order.
  function Listing(rows: seq<TxRow>, q: Query, oldest: bool): seq<Position> {
    Sort(Where(rows, q), Direction(oldest))
  }

  function ListTransactions(rows: seq<TxRow>, q: Query, offset: nat, limit: nat, oldest: bool): seq<Position> {
    Page(Listing(rows, q, oldest), offset, limit)
  }

  // The first pages of a given size, one after the other.
  function Pages(rows: seq<TxRow>, q: Query, oldest: bool, limit: nat, count: nat): seq<Position> {
    if count == 0 then []
    else Pages(rows, q, oldest, limit, count - 1) + ListTransactions(rows, q, (count - 1) * limit, limit, oldest)
  }

  lemma DirectionIsTotal(oldest: bool)
    ensures TotalOrder(Direction(oldest))
  {
  }

  function FirstOf(ps: seq<Position>, n: nat): seq<Position> {
    ps[..if n < |ps| then n else |ps|]
  }

  lemma NextPage(ps: seq<Position>, start: nat, limit: nat)
    ensures FirstOf(ps, start) + Page(ps, start, limit) == FirstOf(ps, start + limit)
  {
  }

  lemma OneMore(count: nat, limit: nat)
    requires count > 0
    ensures (count - 1) * limit + limit == count * limit
  {
  }

  lemma {:induction false} PagesAreAPrefix(rows: seq<TxRow>, q: Query, oldest: bool, limit: nat, count: nat)
    ensures Pages(rows, q, oldest, limit, count) == FirstOf(Listing(rows, q, oldest), count * limit)
  {
    if count == 0 {
    } else {
      var start := (count - 1) * limit;
      PagesAreAPrefix(rows, q, oldest, limit, count - 1);
      NextPage(Listing(rows, q, oldest), start, limit);
      OneMore(count, limit);
    }
  }

  /** With any limit of at least 1, the pages at offsets 0, L, 2L, ... make up the filtered list
      in order: no row is skipped and none comes twice. */
  lemma PagesMakeUpTheList(rows: seq<TxRow>, q: Query, oldest: bool, limit: nat)
    requires limit > 0
    ensures var all := Listing(rows, q, oldest);
            && Pages(rows, q, oldest, limit, |all|) == all
            && multiset(all) == multiset(Where(rows, q))
            && Sorted(all, Direction(oldest))
  {
    var all := Listing(rows, q, oldest);
    DirectionIsTotal(oldest);
    SortSorts(Where(rows, q), Direction(oldest));
    PagesAreAPrefix(rows, q, oldest, limit, |all|);
    AtLeast(|all|, limit);
  }

  lemma AtLeast(n: nat, limit: nat)
    requires limit > 0
    ensures n * limit >= n
  {
  }

  /** A row is listed exactly if it has the account, if one is given, on either side, is not below
      the lower bound, if one other than 0 is given, and is not above the upper bound, if both
      are given. */
  lemma RowListedExactly(row: TxRow, rows: seq<TxRow>, q: Query)
    ensures Where([], q) == []
    ensures Where([row] + rows, q) ==
            (if (q.account == None || row.sender == q.account.value || row.recipient == q.account.value) &&
                (q.blockOffset == None || q.blockOffset == Some(0) ||
                   (row.position.block >= q.blockOffset.value &&
                    (q.blockLimit == None || q.blockLimit == Some(0) || row.position.block <= q.blockLimit.value)))
             then [row.position] else []) + Where(rows, q)
  {
    assert ([row] + rows)[1..] == rows;
  }

  /** A page has the entries from its offset on, as many as its limit or as there are. */
  lemma PageExactly(rows: seq<TxRow>, q: Query, offset: nat, limit: nat, oldest: bool, i: nat)
    ensures var all, page := Listing(rows, q, oldest), ListTransactions(rows, q, offset, limit, oldest);
            && (i < |page| <==> i < limit && offset + i < |all|)
            && (i < |page| ==> page[i] == all[offset + i])
  {
  }

  /** The list is by block and then by index, ascending for the oldest first and descending
      otherwise. */
  lemma ListedInOrder(rows: seq<TxRow>, q: Query, oldest: bool, i: nat, j: nat)
    requires i < j < |Listing(rows, q, oldest)|
    ensures var p, p' := Listing(rows, q, oldest)[i], Listing(rows, q, oldest)[j];
            if oldest then p.block < p'.block || (p.block == p'.block && p.index <= p'.index)
            else p.block > p'.block || (p.block == p'.block && p.index >= p'.index)
  {
    DirectionIsTotal(oldest);
    SortSorts(Where(rows, q), Direction(oldest));
    assert Direction(oldest)(Listing(rows, q, oldest)[i], Listing(rows, q, oldest)[j]);
  }

  /** Asking for the oldest first gives exactly the reverse of the list, ties included: only
      block and index are selected, so equal rows look the same. */
  lemma OldestIsReverse(rows: seq<TxRow>, q: Query)
    ensures Listing(rows, q, true) == Reverse(Listing(rows, q, false))
  {
    var newest := Listing(rows, q, false);
    DirectionIsTotal(true);
    DirectionIsTotal(false);
    SortSorts(Where(rows, q), Direction(true));
    SortSorts(Where(rows, q), Direction(false));
    ReverseKeepsElements(newest);
    ReverseSorted(newest, Direction(true), Direction(false));
    SortedIsUnique(Listing(rows, q, true), Reverse(newest), Direction(true));
  }

  /** A page is ordered. */
  lemma PageIsOrdered(rows: seq<TxRow>, q: Query, offset: nat, limit: nat, oldest: bool)
    ensures Sorted(ListTransactions(rows, q, offset, limit, oldest), Direction(oldest))
  {
    DirectionIsTotal(oldest);
    SortSorts(Where(rows, q), Direction(oldest));
  }

  /** An upper bound on blocks is kept exactly if there is a lower bound too, or no row of the
      account lies above it: without a lower bound the upper one is not looked at. */
  lemma {:induction false} UpperBoundKeptExactly(rows: seq<TxRow>, q: Query)
    requires Given(q.blockLimit)
    ensures (forall p | p in Where(rows, q) :: p.block <= q.blockLimit.value) <==>
            Given(q.blockOffset) ||
            forall row |
              row in rows && (q.account.Some? ==> row.sender == q.account.value || row.recipient == q.account.value) ::
              row.position.block <= q.blockLimit.value
  {
    if rows == [] {
    } else {
      UpperBoundKeptExactly(rows[1..], q);
      var first := if q.Wants(rows[0]) then [rows[0].position] else [];
      assert forall p :: p in Where(rows, q) <==> p in first || p in Where(rows[1..], q);
      assert forall row :: row in rows <==> row == rows[0] || row in rows[1..];
    }
  }

  /** Asked for the blocks up to 5 and no lower bound, the list has block 6. */
  lemma UpperBoundAloneIsIgnored(row: TxRow, account: Option<Address>)
    requires row.position.block == 6 && (account.Some? ==> row.sender == account.value)
    ensures var q := Query(account, None, Some(5));
            Given(q.blockLimit) && ListTransactions([row], q, 0, 1, false) == [row.position]
  {
    var q := Query(account, None, Some(5));
    assert [row][1..] == [];
    assert Where([row], q) == [row.position];
    assert [row.position][1..] == [];
    assert Sort([row.position][1..], Direction(false)) == [];
    assert Listing([row], q, false) == [row.position];
  }
}
