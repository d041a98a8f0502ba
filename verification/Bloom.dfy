/** The transaction index of cic-cache, and the scan of cic-eth that reads it: two Bloom
    filters, one over blocks and one over block and transaction index. */
module Bloom {
  import opened Basics
  import opened Paging
  import Sorting

  newtype byte = x: int | 0 <= x < 256

  // The opaque hash behind a filter: data and round to a number.
  type Hash = (seq<byte>, nat) -> nat

  datatype Filter = Filter(bits: seq<bool>, rounds: nat, hash: Hash) {
    function Bit(data: seq<byte>, round: nat): nat
      requires bits != []
    {
      hash(data, round) % |bits|
    }

    function AddRounds(data: seq<byte>, count: nat): (r: Filter)
      requires bits != []
      ensures |r.bits| == |bits| && r.rounds == rounds && r.hash == hash
    {
      if count == 0 then this
      else
        var f := AddRounds(data, count - 1);
        f.(bits := f.bits[Bit(data, count - 1) := true])
    }

    // Set the bit of every round.
    function Add(data: seq<byte>): Filter
      requires bits != []
    {
      AddRounds(data, rounds)
    }

    // Is the bit of every round set?
    predicate Check(data: seq<byte>)
      requires bits != []
    {
      forall k: nat | k < rounds :: bits[Bit(data, k)]
    }
  }

  const FILTER_BITS: nat := 8192 * 8
  const FILTER_ROUNDS: nat := 3

  function NewFilter(size: nat, hash: Hash): Filter {
    Filter(seq(size, _ => false), FILTER_ROUNDS, hash)
  }

  // ----- a filter as bytes -----

  // Eight bits or fewer as a number, the first bit lowest.
  function NumberOf(bits: seq<bool>): nat {
    if bits == [] then 0 else (if bits[0] then 1 else 0) + 2 * NumberOf(bits[1..])
  }

  function BitsOf(n: nat, count: nat): seq<bool> {
    if count == 0 then [] else [n % 2 == 1] + BitsOf(n / 2, count - 1)
  }

  lemma {:induction false} NumberFits(bits: seq<bool>)
    ensures NumberOf(bits) < Power2(|bits|)
  {
    if bits == [] {
    } else {
      NumberFits(bits[1..]);
    }
  }

  function Power2(n: nat): nat {
    if n == 0 then 1 else 2 * Power2(n - 1)
  }

  lemma {:induction false} BitsSurvive(bits: seq<bool>)
    ensures BitsOf(NumberOf(bits), |bits|) == bits
  {
    if bits == [] {
    } else {
      BitsSurvive(bits[1..]);
      assert NumberOf(bits) / 2 == NumberOf(bits[1..]);
    }
  }

  function ToBytes(bits: seq<bool>): (r: seq<byte>)
    requires |bits| % 8 == 0
    ensures |r| * 8 == |bits|
  {
    if bits == [] then []
    else
      NumberFits(bits[..8]);
      assert Power2(8) == 256;
      [NumberOf(bits[..8]) as byte] + ToBytes(bits[8..])
  }

  function FromBytes(data: seq<byte>): (r: seq<bool>)
    ensures |r| == |data| * 8
  {
    if data == [] then [] else
      BitsOfLength(data[0] as nat, 8);
      BitsOf(data[0] as nat, 8) + FromBytes(data[1..])
  }

  lemma {:induction false} BitsOfLength(n: nat, count: nat)
    ensures |BitsOf(n, count)| == count
  {
    if count == 0 {
    } else {
      BitsOfLength(n / 2, count - 1);
    }
  }

  /** A filter survives being sent as bytes and rebuilt. */
  lemma {:induction false} FilterSurvivesBytes(bits: seq<bool>)
    requires |bits| % 8 == 0
    ensures FromBytes(ToBytes(bits)) == bits
  {
    if bits == [] {
    } else {
      FilterSurvivesBytes(bits[8..]);
      BitsSurvive(bits[..8]);
      var data := ToBytes(bits);
      assert data[1..] == ToBytes(bits[8..]);
      assert bits == bits[..8] + bits[8..];
    }
  }

  // ----- membership -----

  lemma {:induction false} BitsOnlyGrow(f: Filter, data: seq<byte>, count: nat, i: nat)
    requires f.bits != [] && i < |f.bits| && f.bits[i]
    ensures f.AddRounds(data, count).bits[i]
  {
    if count == 0 {
    } else {
      BitsOnlyGrow(f, data, count - 1, i);
    }
  }

  lemma {:induction false} BitsAreSet(f: Filter, data: seq<byte>, count: nat, k: nat)
    requires f.bits != [] && k < count
    ensures f.AddRounds(data, count).bits[f.Bit(data, k)]
  {
    if k == count - 1 {
    } else {
      BitsAreSet(f, data, count - 1, k);
    }
  }

  /** What was added is found. */
  lemma AddedIsFound(f: Filter, data: seq<byte>)
    requires f.bits != []
    ensures f.Add(data).Check(data)
  {
    forall k: nat | k < f.rounds ensures f.Add(data).bits[f.Add(data).Bit(data, k)] {
      BitsAreSet(f, data, f.rounds, k);
      assert f.Add(data).Bit(data, k) == f.Bit(data, k);
    }
  }

  /** Adding never loses what was found before. */
  lemma AddKeepsFound(f: Filter, data: seq<byte>, other: seq<byte>)
    requires f.bits != [] && f.Check(other)
    ensures f.Add(data).Check(other)
  {
    forall k: nat | k < f.rounds ensures f.Add(data).bits[f.Add(data).Bit(other, k)] {
      BitsOnlyGrow(f, data, f.rounds, f.Bit(other, k));
      assert f.Add(data).Bit(other, k) == f.Bit(other, k);
    }
  }

  // The entry sets this bit of a filter with that many bits and rounds.
  predicate SetBy(hash: Hash, rounds: nat, size: nat, data: seq<byte>, i: int)
    requires size > 0
  {
    exists k: nat :: k < rounds && hash(data, k) % size == i
  }

  /** Adding sets the bits of the entry and no others. */
  lemma {:induction false} AddRoundsExactly(f: Filter, data: seq<byte>, count: nat, i: nat)
    requires f.bits != [] && i < |f.bits|
    ensures f.AddRounds(data, count).bits[i] <==> f.bits[i] || SetBy(f.hash, count, |f.bits|, data, i)
  {
    if count == 0 {
    } else {
      AddRoundsExactly(f, data, count - 1, i);
      assert SetBy(f.hash, count, |f.bits|, data, i) <==>
             SetBy(f.hash, count - 1, |f.bits|, data, i) || f.hash(data, count - 1) % |f.bits| == i;
    }
  }

  // The filter has the bits of the entries and no others.
  ghost predicate HasExactly(f: Filter, keys: seq<seq<byte>>)
    requires f.bits != []
  {
    forall i | 0 <= i < |f.bits| ::
      f.bits[i] <==> exists j :: 0 <= j < |keys| && SetBy(f.hash, f.rounds, |f.bits|, keys[j], i)
  }

  lemma HasExactlyNext(f: Filter, keys: seq<seq<byte>>, data: seq<byte>)
    requires f.bits != [] && HasExactly(f, keys)
    ensures HasExactly(f.Add(data), keys + [data])
  {
    var more := keys + [data];
    forall i | 0 <= i < |f.bits|
      ensures f.Add(data).bits[i] <==> exists j :: 0 <= j < |more| && SetBy(f.hash, f.rounds, |f.bits|, more[j], i)
    {
      AddRoundsExactly(f, data, f.rounds, i);
      assert more[|keys|] == data;
      assert forall j :: 0 <= j < |keys| ==> more[j] == keys[j];
    }
  }

  // ----- the index -----

  const WORD: nat := 0x1_0000_0000

  // int.to_bytes(4, 'big').
  function Be32(n: nat): seq<byte>
    requires n < WORD
  {
    [(n / 0x100_0000) as byte, (n / 0x1_0000 % 0x100) as byte, (n / 0x100 % 0x100) as byte, (n % 0x100) as byte]
  }

  lemma ByteByByte(n: nat)
    ensures n / 0x1_0000 == n / 0x100 / 0x100 && n / 0x100_0000 == n / 0x1_0000 / 0x100
  {
  }

  /** The four bytes are the digits of the number to the base of 256, the highest first, so
      different numbers have different bytes. */
  lemma Be32Reads(n: nat)
    requires n < WORD
    ensures |Be32(n)| == 4
    ensures var b := Be32(n);
            ((b[0] as nat * 0x100 + b[1] as nat) * 0x100 + b[2] as nat) * 0x100 + b[3] as nat == n
  {
    ByteByByte(n);
  }

  /** Different blocks, and different positions, are different entries. */
  lemma KeysTellPositionsApart(p: Position, q: Position)
    requires Fits(p) && Fits(q)
    ensures BlockKey(p) == BlockKey(q) <==> p.block == q.block
    ensures TxKey(p) == TxKey(q) <==> p == q
  {
    Be32Reads(p.block);
    Be32Reads(q.block);
    Be32Reads(p.index);
    Be32Reads(q.index);
    if TxKey(p) == TxKey(q) {
      assert TxKey(p)[..4] == Be32(p.block) && TxKey(q)[..4] == Be32(q.block);
      assert TxKey(p)[4..] == Be32(p.index) && TxKey(q)[4..] == Be32(q.index);
    }
  }

  predicate Fits(p: Position) {
    p.block < WORD && p.index < WORD
  }

  function BlockKey(p: Position): seq<byte>
    requires Fits(p)
  {
    Be32(p.block)
  }

  function TxKey(p: Position): seq<byte>
    requires Fits(p)
  {
    Be32(p.block) + Be32(p.index)
  }

  // The index of a page: the range of blocks, the two filters as bytes, and their rounds.
  datatype Index = Index(low: int, high: int, rounds: nat, blocks: seq<byte>, txs: seq<byte>)

  datatype Loaded = Loaded(index: Index) | OverflowError

  // The range that the page spans; -1 on both sides if it is empty.
  ghost predicate Spans(low: int, high: int, page: seq<Position>) {
    && (page == [] ==> low == high == -1)
    && (page != [] ==> exists i :: 0 <= i < |page| && page[i].block == low)
    && (page != [] ==> exists i :: 0 <= i < |page| && page[i].block == high)
    && forall i :: 0 <= i < |page| ==> low <= page[i].block <= high
  }

  // Both filters have the first n entries of the page.
  ghost predicate BothHave(blocks: Filter, txs: Filter, page: seq<Position>, n: nat)
    requires blocks.bits != [] && txs.bits != [] && n <= |page|
  {
    forall i :: 0 <= i < n ==> Fits(page[i]) && blocks.Check(BlockKey(page[i])) && txs.Check(TxKey(page[i]))
  }

  lemma BothHaveNext(blocks: Filter, txs: Filter, page: seq<Position>, n: nat)
    requires blocks.bits != [] && txs.bits != [] && n < |page| && BothHave(blocks, txs, page, n) && Fits(page[n])
    ensures BothHave(blocks.Add(BlockKey(page[n])), txs.Add(TxKey(page[n])), page, n + 1)
  {
    AddedIsFound(blocks, BlockKey(page[n]));
    AddedIsFound(txs, TxKey(page[n]));
    forall i | 0 <= i < n
      ensures blocks.Add(BlockKey(page[n])).Check(BlockKey(page[i])) && txs.Add(TxKey(page[n])).Check(TxKey(page[i]))
    {
      AddKeepsFound(blocks, BlockKey(page[n]), BlockKey(page[i]));
      AddKeepsFound(txs, TxKey(page[n]), TxKey(page[i]));
    }
  }

  // Everything the page lists is in both filters, as the reader rebuilds them.
  ghost predicate Indexes(index: Index, hash: Hash, page: seq<Position>)
    requires |index.blocks| == |index.txs| == FILTER_BITS / 8
  {
    forall i :: 0 <= i < |page| ==>
      Fits(page[i]) && Rebuild(index.blocks, index.rounds, hash).Check(BlockKey(page[i])) &&
        Rebuild(index.txs, index.rounds, hash).Check(TxKey(page[i]))
  }

  lemma SentFiltersIndex(blocks: Filter, txs: Filter, index: Index, page: seq<Position>)
    requires |blocks.bits| == |txs.bits| == FILTER_BITS && BothHave(blocks, txs, page, |page|)
    requires blocks.rounds == txs.rounds == FILTER_ROUNDS && blocks.hash == txs.hash
    requires index.blocks == ToBytes(blocks.bits) && index.txs == ToBytes(txs.bits) && index.rounds == FILTER_ROUNDS
    ensures Indexes(index, blocks.hash, page)
  {
    FilterSurvivesBytes(blocks.bits);
    FilterSurvivesBytes(txs.bits);
    assert Rebuild(index.blocks, index.rounds, blocks.hash) == blocks &&
           Rebuild(index.txs, index.rounds, txs.hash) == txs;
  }

  // Each bit of the two filters is set exactly if it is the hash of some listed entry in some
  // round.
  ghost predicate ListsExactly(index: Index, hash: Hash, page: seq<Position>)
    requires |index.blocks| == |index.txs| == FILTER_BITS / 8
  {
    forall i | 0 <= i < FILTER_BITS ::
      && (FromBytes(index.blocks)[i] <==>
            exists j, k: nat ::
              0 <= j < |page| && Fits(page[j]) && k < 3 && hash(BlockKey(page[j]), k) % FILTER_BITS == i)
      && (FromBytes(index.txs)[i] <==>
            exists j, k: nat ::
              0 <= j < |page| && Fits(page[j]) && k < 3 && hash(TxKey(page[j]), k) % FILTER_BITS == i)
  }

  // The keys of the first n entries of the page.
  ghost predicate KeysOf(blockKeys: seq<seq<byte>>, txKeys: seq<seq<byte>>, page: seq<Position>, n: nat)
    requires n <= |page|
  {
    && |blockKeys| == |txKeys| == n
    && forall j :: 0 <= j < n ==> Fits(page[j]) && blockKeys[j] == BlockKey(page[j]) && txKeys[j] == TxKey(page[j])
  }

  lemma SentFiltersListExactly(blocks: Filter, txs: Filter, index: Index, page: seq<Position>,
                               blockKeys: seq<seq<byte>>, txKeys: seq<seq<byte>>)
    requires |blocks.bits| == |txs.bits| == FILTER_BITS && KeysOf(blockKeys, txKeys, page, |page|)
    requires blocks.rounds == txs.rounds == FILTER_ROUNDS && blocks.hash == txs.hash
    requires HasExactly(blocks, blockKeys) && HasExactly(txs, txKeys)
    requires index.blocks == ToBytes(blocks.bits) && index.txs == ToBytes(txs.bits)
    ensures ListsExactly(index, blocks.hash, page)
  {
    FilterSurvivesBytes(blocks.bits);
    FilterSurvivesBytes(txs.bits);
    forall i | 0 <= i < FILTER_BITS
      ensures blocks.bits[i] <==> exists j, k: nat ::
                0 <= j < |page| && Fits(page[j]) && k < 3 && blocks.hash(BlockKey(page[j]), k) % FILTER_BITS == i
    {
      BitOfSomeBlock(blocks, page, blockKeys, txKeys, i);
    }
    forall i | 0 <= i < FILTER_BITS
      ensures txs.bits[i] <==> exists j, k: nat ::
                0 <= j < |page| && Fits(page[j]) && k < 3 && txs.hash(TxKey(page[j]), k) % FILTER_BITS == i
    {
      BitOfSomeTx(txs, page, blockKeys, txKeys, i);
    }
  }

  lemma BitOfSomeBlock(blocks: Filter, page: seq<Position>, blockKeys: seq<seq<byte>>, txKeys: seq<seq<byte>>, i: nat)
    requires |blocks.bits| == FILTER_BITS && i < FILTER_BITS && KeysOf(blockKeys, txKeys, page, |page|)
    requires blocks.rounds == FILTER_ROUNDS && HasExactly(blocks, blockKeys)
    ensures blocks.bits[i] <==> exists j, k: nat ::
              0 <= j < |page| && Fits(page[j]) && k < 3 && blocks.hash(BlockKey(page[j]), k) % FILTER_BITS == i
  {
    if blocks.bits[i] {
      var j :| 0 <= j < |blockKeys| && SetBy(blocks.hash, 3, FILTER_BITS, blockKeys[j], i);
      assert blockKeys[j] == BlockKey(page[j]);
    }
    if j, k: nat :| 0 <= j < |page| && Fits(page[j]) && k < 3 && blocks.hash(BlockKey(page[j]), k) % FILTER_BITS == i {
      assert SetBy(blocks.hash, 3, FILTER_BITS, blockKeys[j], i);
    }
  }

  lemma BitOfSomeTx(txs: Filter, page: seq<Position>, blockKeys: seq<seq<byte>>, txKeys: seq<seq<byte>>, i: nat)
    requires |txs.bits| == FILTER_BITS && i < FILTER_BITS && KeysOf(blockKeys, txKeys, page, |page|)
    requires txs.rounds == FILTER_ROUNDS && HasExactly(txs, txKeys)
    ensures txs.bits[i] <==> exists j, k: nat ::
              0 <= j < |page| && Fits(page[j]) && k < 3 && txs.hash(TxKey(page[j]), k) % FILTER_BITS == i
  {
    if txs.bits[i] {
      var j :| 0 <= j < |txKeys| && SetBy(txs.hash, 3, FILTER_BITS, txKeys[j], i);
      assert txKeys[j] == TxKey(page[j]);
    }
    if j, k: nat :| 0 <= j < |page| && Fits(page[j]) && k < 3 && txs.hash(TxKey(page[j]), k) % FILTER_BITS == i {
      assert SetBy(txs.hash, 3, FILTER_BITS, txKeys[j], i);
    }
  }

  // The bit is one of some listed transaction.
  ghost predicate Covered(hash: Hash, page: seq<Position>, i: nat) {
    exists j, k: nat :: 0 <= j < |page| && Fits(page[j]) && k < 3 && hash(TxKey(page[j]), k) % FILTER_BITS == i
  }

  /** A transaction that the page does not list passes the filter exactly if each of its bits is
      one of some listed transaction; with an empty page none passes. */
  lemma FoundOnlyIfCovered(index: Index, hash: Hash, page: seq<Position>, p: Position)
    requires |index.blocks| == |index.txs| == FILTER_BITS / 8 && index.rounds == 3
    requires ListsExactly(index, hash, page) && Fits(p)
    ensures Rebuild(index.txs, index.rounds, hash).Check(TxKey(p)) <==>
            forall l: nat | l < 3 :: Covered(hash, page, hash(TxKey(p), l) % FILTER_BITS)
    ensures page == [] ==> !Rebuild(index.txs, index.rounds, hash).Check(TxKey(p))
    ensures page == [] ==> !Rebuild(index.blocks, index.rounds, hash).Check(BlockKey(p))
  {
    var blocks, txs := Rebuild(index.blocks, index.rounds, hash), Rebuild(index.txs, index.rounds, hash);
    forall l: nat | l < 3
      ensures txs.bits[txs.Bit(TxKey(p), l)] <==> Covered(hash, page, hash(TxKey(p), l) % FILTER_BITS)
    {
      assert txs.Bit(TxKey(p), l) == hash(TxKey(p), l) % FILTER_BITS;
    }
    if page == [] {
      assert !txs.bits[txs.Bit(TxKey(p), 0)] && !blocks.bits[blocks.Bit(BlockKey(p), 0)];
    }
  }

  // The bounds the loop has noted after n rows of an ordered page.
  ghost predicate Noted(lowest: int, highest: int, page: seq<Position>, n: nat, oldest: bool)
    requires n <= |page|
  {
    if n == 0 then highest == -1 && lowest == -1
    else if oldest then lowest == page[0].block && highest == page[n - 1].block
    else highest == page[0].block && lowest == page[n - 1].block
  }

  lemma NotedSpans(lowest: int, highest: int, page: seq<Position>, oldest: bool)
    requires Sorting.Sorted(page, Direction(oldest)) && Noted(lowest, highest, page, |page|, oldest)
    ensures Spans(lowest, highest, page)
  {
    forall i | 0 <= i < |page| ensures lowest <= page[i].block <= highest {
      assert i > 0 ==> Direction(oldest)(page[0], page[i]);
      assert i < |page| - 1 ==> Direction(oldest)(page[i], page[|page| - 1]);
    }
  }

  /** Read a page and build its index. */
  method LoadTransactions(rows: seq<TxRow>, q: Query, offset: nat, limit: nat, oldest: bool, hash: Hash)
    returns (r: Loaded, page: seq<Position>)
    ensures page == ListTransactions(rows, q, offset, limit, oldest)
    ensures r.OverflowError? <==>
            exists i :: 0 <= i < |page| && (page[i].block >= 0x1_0000_0000 || page[i].index >= 0x1_0000_0000)
    ensures r.Loaded? ==> Spans(r.index.low, r.index.high, page)
    ensures r.Loaded? ==> |r.index.blocks| == |r.index.txs| == FILTER_BITS / 8 && Indexes(r.index, hash, page)
    ensures r.Loaded? ==> r.index.rounds == 3 && ListsExactly(r.index, hash, page)
  {
    page := ListTransactions(rows, q, offset, limit, oldest);
    PageIsOrdered(rows, q, offset, limit, oldest);
    var blocks, txs := NewFilter(FILTER_BITS, hash), NewFilter(FILTER_BITS, hash);
    var highest: int, lowest: int := -1, -1;
    ghost var blockKeys: seq<seq<byte>>, txKeys: seq<seq<byte>> := [], [];
    for n := 0 to |page|
      invariant |blocks.bits| == |txs.bits| == FILTER_BITS
      invariant blocks.rounds == txs.rounds == FILTER_ROUNDS && blocks.hash == txs.hash == hash
      invariant Noted(lowest, highest, page, n, oldest)
      invariant BothHave(blocks, txs, page, n)
      invariant KeysOf(blockKeys, txKeys, page, n) && HasExactly(blocks, blockKeys) && HasExactly(txs, txKeys)
    {
      var p := page[n];
      if highest == -1 {
        highest := p.block;
        lowest := p.block;
      } else {
        if oldest {
          highest := p.block;
        } else {
          lowest := p.block;
        }
      }
      if !Fits(p) {
        return OverflowError, page;
      }
      BothHaveNext(blocks, txs, page, n);
      HasExactlyNext(blocks, blockKeys, BlockKey(p));
      HasExactlyNext(txs, txKeys, TxKey(p));
      blockKeys, txKeys := blockKeys + [BlockKey(p)], txKeys + [TxKey(p)];
      blocks := blocks.Add(BlockKey(p));
      txs := txs.Add(TxKey(p));
    }
    r := Loaded(Index(lowest, highest, FILTER_ROUNDS, ToBytes(blocks.bits), ToBytes(txs.bits)));
    SentFiltersIndex(blocks, txs, r.index, page);
    SentFiltersListExactly(blocks, txs, r.index, page, blockKeys, txKeys);
    NotedSpans(lowest, highest, page, oldest);
  }

  // The filter as the reader rebuilds it, with the rounds it is told.
  function Rebuild(data: seq<byte>, rounds: nat, hash: Hash): Filter {
    Filter(FromBytes(data), rounds, hash)
  }

  /** A rebuilt filter has an entry exactly if the bit of each of the rounds it is told is set in
      the data. */
  lemma RebuiltChecksExactly(data: seq<byte>, rounds: nat, hash: Hash, key: seq<byte>)
    requires data != []
    ensures Rebuild(data, rounds, hash).Check(key) <==>
            forall k: nat | k < rounds :: FromBytes(data)[hash(key, k) % (8 * |data|)]
  {
    var f := Rebuild(data, rounds, hash);
    assert forall k: nat :: f.Bit(key, k) == hash(key, k) % (8 * |data|);
  }

  // ----- the scan -----

  // A transaction as the node returns it: whether its lookup succeeds, and the recipient that
  // parsing its input gives, if any.
  datatype ChainTx = ChainTx(lookup: bool, recipient: Option<Address>)

  type Chain = nat -> seq<ChainTx>

  // The transaction at the position is to the account.
  predicate PaysTo(chain: Chain, p: Position, account: Address) {
    p.index < |chain(p.block)| && chain(p.block)[p.index] == ChainTx(true, Some(account))
  }

  // The scan reports the transaction at this position of its block: both filters have it, it
  // is to the account, and no earlier one of the block that the filter has is.
  ghost predicate Reported(index: Index, hash: Hash, chain: Chain, account: Address, p: Position)
    requires index.blocks != [] && index.txs != []
  {
    && Fits(p) && index.low <= p.block < index.high
    && Rebuild(index.blocks, index.rounds, hash).Check(BlockKey(p)) &&
       Rebuild(index.txs, index.rounds, hash).Check(TxKey(p))
    && PaysTo(chain, p, account)
    && forall j: nat :: j < p.index && PaysTo(chain, Position(p.block, j), account) ==>
      !Rebuild(index.txs, index.rounds, hash).Check(TxKey(Position(p.block, j)))
  }

  // Scan one block: the first of its transactions that the filter has and that is to the account.
  method ScanBlock(txs: Filter, block: nat, chain: Chain, account: Address) returns (r: Option<nat>)
    requires txs.bits != [] && block < WORD && |chain(block)| <= WORD
    ensures r.Some? ==>
              && r.value < |chain(block)| && PaysTo(chain, Position(block, r.value), account)
              && txs.Check(TxKey(Position(block, r.value)))
              && forall j: nat :: j < r.value && PaysTo(chain, Position(block, j), account) ==>
                 !txs.Check(TxKey(Position(block, j)))
    ensures r.None? ==> forall j: nat :: j < |chain(block)| && PaysTo(chain, Position(block, j), account) ==>
                            !txs.Check(TxKey(Position(block, j)))
  {
    for i := 0 to |chain(block)|
      invariant forall j: nat :: j < i && PaysTo(chain, Position(block, j), account) ==>
                !txs.Check(TxKey(Position(block, j)))
    {
      if txs.Check(Be32(block) + Be32(i)) {
        var tx := chain(block)[i];
        if !tx.lookup {
          continue;
        }
        if tx.recipient == None {
          continue;
        }
        if tx.recipient.value == account {
          return Some(i);
        }
      }
    }
    r := None;
  }

  /** The scan over the blocks from low up to, and not including, high. Both filters have the
      length of the block filter. */
  method ListTxByBloom(index: Index, hash: Hash, chain: Chain, account: Address)
    returns (found: seq<Position>, overflow: bool)
    requires index.blocks != [] && |index.txs| == |index.blocks|
    requires forall b :: index.low <= b < index.high && 0 <= b ==> |chain(b)| <= WORD
    ensures overflow <==> index.low < index.high && (index.low < 0 || index.high > WORD)
    ensures !overflow ==> forall p: Position :: p in found <==> Reported(index, hash, chain, account, p)
    ensures !overflow ==> forall i, j :: 0 <= i < j < |found| ==> found[i].block < found[j].block
  {
    var blocks, txs := Rebuild(index.blocks, index.rounds, hash), Rebuild(index.txs, index.rounds, hash);
    found, overflow := [], false;
    if index.low >= index.high {
      return;
    }
    for b := index.low to index.high
      invariant b > index.low ==> 0 <= index.low && b <= WORD
      invariant forall p: Position :: p in found <==> p.block < b && Reported(index, hash, chain, account, p)
      invariant forall i, j :: 0 <= i < j < |found| ==> found[i].block < found[j].block
    {
      if b < 0 || b >= WORD {
        return [], true;
      }
      if blocks.Check(Be32(b)) {
        var hit := ScanBlock(txs, b, chain, account);
        if hit.Some? {
          found := found + [Position(b, hit.value)];
        }
        forall p: Position | p.block == b ensures Reported(index, hash, chain, account, p) <==> hit == Some(p.index) {
          OneHitPerBlock(index, hash, chain, account, p, hit);
        }
      }
    }
  }

  lemma OneHitPerBlock(index: Index, hash: Hash, chain: Chain, account: Address, p: Position, hit: Option<nat>)
    requires index.blocks != [] && index.txs != [] && p.block < WORD && |chain(p.block)| <= WORD
    requires index.low <= p.block < index.high && Rebuild(index.blocks, index.rounds, hash).Check(Be32(p.block))
    requires var txs := Rebuild(index.txs, index.rounds, hash);
             && (hit.Some? ==>
                   && hit.value < |chain(p.block)| && PaysTo(chain, Position(p.block, hit.value), account)
                   && txs.Check(TxKey(Position(p.block, hit.value)))
                   && forall j: nat :: j < hit.value && PaysTo(chain, Position(p.block, j), account) ==>
                     !txs.Check(TxKey(Position(p.block, j))))
             && (hit.None? ==> forall j: nat :: j < |chain(p.block)| && PaysTo(chain, Position(p.block, j), account) ==>
                   !txs.Check(TxKey(Position(p.block, j))))
    ensures Reported(index, hash, chain, account, p) <==> hit == Some(p.index)
  {
    if Reported(index, hash, chain, account, p) {
      assert p == Position(p.block, p.index);
    }
  }

  /** The index agrees with the list it speeds up: for every transaction to the account that a
      page lists, the scan with the page's index finds one in its block, the first that the
      filter has, exactly if the block is below the page's highest. Transactions of the
      highest block itself are never found. */
  lemma IndexAgreesWithList(page: seq<Position>, index: Index, hash: Hash, chain: Chain, account: Address, i: nat)
    requires |index.blocks| == |index.txs| == FILTER_BITS / 8
    requires Spans(index.low, index.high, page) && Indexes(index, hash, page)
    requires i < |page| && PaysTo(chain, page[i], account)
    ensures (exists p: Position :: p.block == page[i].block && Reported(index, hash, chain, account, p))
            <==> page[i].block < index.high
  {
    if page[i].block < index.high {
      var txs := Rebuild(index.txs, index.rounds, hash);
      var k := 0;
      while !(PaysTo(chain, Position(page[i].block, k), account) && txs.Check(TxKey(Position(page[i].block, k))))
        invariant k <= page[i].index
        invariant forall j: nat :: j < k && PaysTo(chain, Position(page[i].block, j), account) ==>
                    !txs.Check(TxKey(Position(page[i].block, j)))
        decreases page[i].index - k
      {
        assert page[i] == Position(page[i].block, page[i].index);
        k := k + 1;
      }
      assert Reported(index, hash, chain, account, Position(page[i].block, k));
    }
  }
}
