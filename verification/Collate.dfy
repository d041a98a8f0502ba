/** Merging transactions from several sources into one list in order of time. */
module Collate {
  import opened Basics
  import opened Sorting
  import opened Keys

  // A transaction as the sources describe it; senders are hexadecimal, without dots.
  datatype Entry = Entry(timestamp: nat, sender: string, nonce: nat, details: string)

  function Key(e: Entry): string {
    Decimal(e.timestamp) + "." + (e.sender + "." + Decimal(e.nonce))
  }

  // All entries of all batches, in the order they are read.
  function Flatten(batches: seq<seq<Entry>>): seq<Entry> {
    if batches == [] then [] else Flatten(batches[..|batches| - 1]) + batches[|batches| - 1]
  }

  // The last entry with the key.
  function LastWith(entries: seq<Entry>, k: string): Option<Entry> {
    if entries == [] then None
    else if Key(entries[|entries| - 1]) == k then Some(entries[|entries| - 1])
    else LastWith(entries[..|entries| - 1], k)
  }

  /** A key determines the timestamp, the sender and the nonce. */
  lemma KeyIsInjective(e: Entry, f: Entry)
    requires Dotless(e.sender) && Dotless(f.sender) && Key(e) == Key(f)
    ensures e.timestamp == f.timestamp && e.sender == f.sender && e.nonce == f.nonce
  {
    DigitsReadBack(e.timestamp);
    DigitsReadBack(f.timestamp);
    SplitAtDot(Decimal(e.timestamp), e.sender + "." + Decimal(e.nonce),
               Decimal(f.timestamp), f.sender + "." + Decimal(f.nonce));
    SplitAtDot(e.sender, Decimal(e.nonce), f.sender, Decimal(f.nonce));
    DecimalIsInjective(e.timestamp, f.timestamp);
    DecimalIsInjective(e.nonce, f.nonce);
  }

  function Get(byKey: map<string, Entry>, k: string): Option<Entry> {
    if k in byKey then Some(byKey[k]) else None
  }

  // The dictionary after some entries: for each key the last entry, and each key once.
  ghost predicate DictSound(entries: seq<Entry>, byKey: map<string, Entry>, ks: seq<string>) {
    && (forall k :: LastWith(entries, k) == Get(byKey, k))
    && (forall k :: k in ks <==> k in byKey)
    && (forall i, j :: 0 <= i < j < |ks| ==> ks[i] != ks[j])
  }

  lemma DictAfterEntry(entries: seq<Entry>, e: Entry, byKey: map<string, Entry>, ks: seq<string>)
    requires DictSound(entries, byKey, ks)
    ensures DictSound(entries + [e], byKey[Key(e) := e], if Key(e) in byKey then ks else ks + [Key(e)])
  {
    assert (entries + [e])[..|entries|] == entries;
    forall k ensures LastWith(entries + [e], k) == Get(byKey[Key(e) := e], k) {
      assert LastWith(entries, k) == Get(byKey, k);
    }
  }

  // Read one entry into the dictionary.
  method AddEntry(ghost read: seq<Entry>, e: Entry, dict: map<string, Entry>, keys: seq<string>)
    returns (byKey: map<string, Entry>, ks: seq<string>)
    requires DictSound(read, dict, keys)
    ensures DictSound(read + [e], byKey, ks)
  {
    var k := Key(e);
    DictAfterEntry(read, e, dict, keys);
    ks := keys;
    if k !in dict {
      ks := ks + [k];
    }
    byKey := dict[k := e];
  }

  // Read one batch.
  method AddBatch(ghost before: seq<Entry>, batch: seq<Entry>, dict: map<string, Entry>, keys: seq<string>)
    returns (byKey: map<string, Entry>, ks: seq<string>)
    requires DictSound(before, dict, keys)
    ensures DictSound(before + batch, byKey, ks)
  {
    byKey, ks := dict, keys;
    ghost var read := before;
    for n := 0 to |batch|
      invariant read == before + batch[..n] && DictSound(read, byKey, ks)
    {
      byKey, ks := AddEntry(read, batch[n], byKey, ks);
      read := read + [batch[n]];
    }
    assert batch[..|batch|] == batch;
  }

  /** Fill the dictionary from the batches; a later entry takes the place of an earlier one
      with its key. The keys are listed in the order they first appear. */
  method FillDict(batches: seq<seq<Entry>>) returns (byKey: map<string, Entry>, ks: seq<string>)
    ensures DictSound(Flatten(batches), byKey, ks)
  {
    byKey, ks := map[], [];
    for b := 0 to |batches|
      invariant DictSound(Flatten(batches[..b]), byKey, ks)
    {
      assert batches[..b + 1][..b] == batches[..b];
      byKey, ks := AddBatch(Flatten(batches[..b]), batches[b], byKey, ks);
    }
    assert batches[..|batches|] == batches;
  }

  // The verified entries of the dictionary in the order of the keys.
  function Select(ks: seq<string>, byKey: map<string, Entry>, verified: Entry -> bool): seq<Entry>
    requires forall k | k in ks :: k in byKey
  {
    if ks == [] then []
    else
      var e := byKey[ks[|ks| - 1]];
      Select(ks[..|ks| - 1], byKey, verified) + if verified(e) then [e] else []
  }

  ghost predicate Listed(entries: seq<Entry>, verified: Entry -> bool, e: Entry) {
    LastWith(entries, Key(e)) == Some(e) && verified(e)
  }

  // Strictly in the order of the keys, the greatest first if newestFirst.
  ghost predicate KeyOrdered(txs: seq<Entry>, newestFirst: bool) {
    forall i, j :: 0 <= i < j < |txs| ==>
      if newestFirst then LexLess(Key(txs[j]), Key(txs[i])) else LexLess(Key(txs[i]), Key(txs[j]))
  }

  method SelectVerified(ks: seq<string>, byKey: map<string, Entry>, verified: Entry -> bool) returns (txs: seq<Entry>)
    requires forall k | k in ks :: k in byKey
    ensures txs == Select(ks, byKey, verified)
  {
    txs := [];
    for i := 0 to |ks|
      invariant txs == Select(ks[..i], byKey, verified)
    {
      assert ks[..i + 1][..i] == ks[..i];
      var tx := byKey[ks[i]];
      if !verified(tx) {
        continue;
      }
      txs := txs + [tx];
    }
    assert ks[..|ks|] == ks;
  }

  /** Merge the batches: one entry per key, the last one read, if it verifies, in the order of
      the keys. */
  method TxCollate(batches: seq<seq<Entry>>, newestFirst: bool, verified: Entry -> bool) returns (txs: seq<Entry>)
    ensures forall e :: e in txs <==> Listed(Flatten(batches), verified, e)
    ensures KeyOrdered(txs, newestFirst)
    ensures Chronological(txs, newestFirst) <==> TimestampsPad(batches, verified)
  {
    var byKey, ks := FillDict(batches);
    KeysInOrder(ks, newestFirst);
    ArrangedMeans(Flatten(batches), byKey, ks, newestFirst, verified);
    ks := Sort(ks, LexOrder());
    if newestFirst {
      ks := Reverse(ks);
    }
    txs := SelectVerified(ks, byKey, verified);
    ChronologicalExactly(batches, newestFirst, verified, txs);
  }

  lemma ArrangedMeans(entries: seq<Entry>, byKey: map<string, Entry>, ks: seq<string>, newestFirst: bool,
                      verified: Entry -> bool)
    requires DictSound(entries, byKey, ks)
    requires forall k :: k in Arranged(ks, newestFirst) <==> k in ks
    requires StringsOrdered(Arranged(ks, newestFirst), newestFirst)
    ensures var txs := Select(Arranged(ks, newestFirst), byKey, verified);
            (forall e :: e in txs <==> Listed(entries, verified, e)) && KeyOrdered(txs, newestFirst)
  {
    var order := Arranged(ks, newestFirst);
    LastHasKey(entries, byKey);
    SelectIsOrdered(order, byKey, verified, newestFirst);
    forall e ensures e in Select(order, byKey, verified) <==> Listed(entries, verified, e) {
      SelectMeans(order, byKey, verified, e);
      assert Key(e) in byKey <==> Key(e) in order;
    }
  }

  // ----- the order of the keys -----

  ghost predicate StringsOrdered(ks: seq<string>, newestFirst: bool) {
    forall i, j :: 0 <= i < j < |ks| ==> if newestFirst then LexLess(ks[j], ks[i]) else LexLess(ks[i], ks[j])
  }

  function Arranged(ks: seq<string>, newestFirst: bool): seq<string> {
    if newestFirst then Reverse(Sort(ks, LexOrder())) else Sort(ks, LexOrder())
  }

  lemma KeysInOrder(ks: seq<string>, newestFirst: bool)
    requires forall i, j :: 0 <= i < j < |ks| ==> ks[i] != ks[j]
    ensures forall k :: k in Arranged(ks, newestFirst) <==> k in ks
    ensures StringsOrdered(Arranged(ks, newestFirst), newestFirst)
  {
    var sorted := Sort(ks, LexOrder());
    LexOrderIsTotal();
    SortSorts(ks, LexOrder());
    ReverseKeepsElements(sorted);
    DistinctAsMultiset(ks);
    DistinctFromMultiset(sorted);
    forall k ensures k in Arranged(ks, newestFirst) <==> k in ks {
      assert k in Arranged(ks, newestFirst) <==> k in multiset(Arranged(ks, newestFirst));
      assert k in ks <==> k in multiset(ks);
    }
    forall i, j | 0 <= i < j < |ks| && newestFirst ensures LexLess(Reverse(sorted)[j], Reverse(sorted)[i]) {
      ReverseAt(sorted, i);
      ReverseAt(sorted, j);
    }
  }

  lemma {:induction false} DistinctAsMultiset(ks: seq<string>)
    requires forall i, j :: 0 <= i < j < |ks| ==> ks[i] != ks[j]
    ensures forall k :: multiset(ks)[k] <= 1
  {
    if ks == [] {
    } else {
      DistinctAsMultiset(ks[1..]);
      assert ks == [ks[0]] + ks[1..];
      assert ks[0] !in multiset(ks[1..]);
    }
  }

  lemma EqualPlacesCountTwice(ks: seq<string>, i: nat, j: nat)
    requires i < j < |ks| && ks[i] == ks[j]
    ensures multiset(ks)[ks[i]] >= 2
  {
    assert ks == ks[..j] + [ks[j]] + ks[j + 1..];
    assert ks[i] in ks[..j];
  }

  lemma DistinctFromMultiset(ks: seq<string>)
    requires forall k :: multiset(ks)[k] <= 1
    ensures forall i, j :: 0 <= i < j < |ks| ==> ks[i] != ks[j]
  {
    forall i, j | 0 <= i < j < |ks| ensures ks[i] != ks[j] {
      if ks[i] == ks[j] {
        EqualPlacesCountTwice(ks, i, j);
      }
    }
  }

  lemma {:induction false} LastHasKeyAt(entries: seq<Entry>, k: string)
    ensures LastWith(entries, k).Some? ==> Key(LastWith(entries, k).value) == k
  {
    if entries == [] {
    } else {
      LastHasKeyAt(entries[..|entries| - 1], k);
    }
  }

  lemma LastHasKey(entries: seq<Entry>, byKey: map<string, Entry>)
    requires forall k :: LastWith(entries, k) == Get(byKey, k)
    ensures forall k | k in byKey :: Key(byKey[k]) == k
  {
    forall k | k in byKey ensures Key(byKey[k]) == k {
      LastHasKeyAt(entries, k);
      assert Get(byKey, k) == Some(byKey[k]);
    }
  }

  lemma {:induction false} SelectMeans(ks: seq<string>, byKey: map<string, Entry>, verified: Entry -> bool, e: Entry)
    requires forall k | k in ks :: k in byKey
    requires forall k | k in byKey :: Key(byKey[k]) == k
    ensures e in Select(ks, byKey, verified) <==> Key(e) in ks && byKey[Key(e)] == e && verified(e)
  {
    if ks == [] {
    } else {
      var front := ks[..|ks| - 1];
      SelectMeans(front, byKey, verified, e);
      assert forall k :: k in ks <==> k in front || k == ks[|ks| - 1];
    }
  }

  lemma {:induction false} SelectIsOrdered(ks: seq<string>, byKey: map<string, Entry>, verified: Entry -> bool,
                                           newestFirst: bool)
    requires forall k | k in ks :: k in byKey
    requires forall k | k in byKey :: Key(byKey[k]) == k
    requires StringsOrdered(ks, newestFirst)
    ensures KeyOrdered(Select(ks, byKey, verified), newestFirst)
  {
    if ks == [] {
    } else {
      var front, last := ks[..|ks| - 1], ks[|ks| - 1];
      SelectIsOrdered(front, byKey, verified, newestFirst);
      var kept := Select(front, byKey, verified);
      forall i | 0 <= i < |kept| ensures Key(kept[i]) in front {
        SelectMeans(front, byKey, verified, kept[i]);
      }
    }
  }

  /** At one timestamp the order is by sender, for senders of one length, and then by nonce as a
      string. */
  lemma TiesBySenderThenNonce(e: Entry, f: Entry)
    requires e.timestamp == f.timestamp && |e.sender| == |f.sender|
    ensures LexLess(Key(e), Key(f)) <==>
            if e.sender != f.sender then LexLess(e.sender, f.sender) else LexLess(Decimal(e.nonce), Decimal(f.nonce))
  {
    var p, a, b := Decimal(e.timestamp) + ".", e.sender + "." + Decimal(e.nonce), f.sender + "." + Decimal(f.nonce);
    LexSamePrefix(p, a, b);
    if e.sender != f.sender {
      assert a == e.sender + ("." + Decimal(e.nonce)) && b == f.sender + ("." + Decimal(f.nonce));
      LexSameLength(e.sender, f.sender, "." + Decimal(e.nonce), "." + Decimal(f.nonce));
    } else {
      LexSamePrefix(e.sender + ".", Decimal(e.nonce), Decimal(f.nonce));
    }
  }

  // The entry stands at the index, and the key nowhere later.
  ghost predicate LastAt(entries: seq<Entry>, k: string, e: Entry, i: int) {
    0 <= i < |entries| && entries[i] == e && Key(e) == k && forall j | i < j < |entries| :: Key(entries[j]) != k
  }

  lemma {:induction false} LastWithExactly(entries: seq<Entry>, k: string, e: Entry)
    ensures LastWith(entries, k) == Some(e) <==> exists i :: LastAt(entries, k, e, i)
  {
    if entries == [] {
    } else {
      var last := |entries| - 1;
      var front := entries[..last];
      LastWithExactly(front, k, e);
      if Key(entries[last]) != k {
        forall i ensures LastAt(entries, k, e, i) <==> LastAt(front, k, e, i) {
        }
      } else if entries[last] == e {
        assert LastAt(entries, k, e, last);
      }
    }
  }

  /** An entry is listed exactly if it verifies and stands somewhere in the batches with no later
      entry of the same timestamp, sender and nonce. */
  lemma ListedExactly(entries: seq<Entry>, verified: Entry -> bool, e: Entry)
    requires forall f | f in entries :: Dotless(f.sender)
    ensures Listed(entries, verified, e) <==>
            && verified(e)
            && exists i :: 0 <= i < |entries| && entries[i] == e && NoneLater(entries, i, e)
  {
    LastWithExactly(entries, Key(e), e);
    forall i | 0 <= i < |entries| && entries[i] == e
      ensures NoneLater(entries, i, e) <==> LastAt(entries, Key(e), e, i)
    {
      forall j | i < j < |entries|
        ensures Key(entries[j]) == Key(e) <==>
                entries[j].timestamp == e.timestamp && entries[j].sender == e.sender && entries[j].nonce == e.nonce
      {
        if Key(entries[j]) == Key(e) {
          assert entries[i] in entries && entries[j] in entries;
          KeyIsInjective(entries[j], e);
        }
      }
    }
  }

  ghost predicate NoneLater(entries: seq<Entry>, i: nat, e: Entry) {
    forall j | i < j < |entries| ::
      !(entries[j].timestamp == e.timestamp && entries[j].sender == e.sender && entries[j].nonce == e.nonce)
  }

  /** The batches are read one after the other. */
  lemma BatchesInOrder(batches: seq<seq<Entry>>, batch: seq<Entry>)
    ensures Flatten([]) == [] && Flatten(batches + [batch]) == Flatten(batches) + batch
  {
    assert (batches + [batch])[..|batches|] == batches;
  }

  // ----- chronological order -----

  ghost predicate Chronological(txs: seq<Entry>, newestFirst: bool) {
    forall i, j :: 0 <= i < j < |txs| ==>
      if newestFirst then txs[i].timestamp >= txs[j].timestamp else txs[i].timestamp <= txs[j].timestamp
  }

  // Of what the batches list, any earlier timestamp, padded with zeros to the width of a later
  // one, is not above it.
  ghost predicate TimestampsPad(batches: seq<seq<Entry>>, verified: Entry -> bool) {
    forall e, f | Listed(Flatten(batches), verified, e) && Listed(Flatten(batches), verified, f) ::
      e.timestamp < f.timestamp ==> PadsBelow(e.timestamp, f.timestamp)
  }

  // What merging the batches promises.
  ghost predicate Collated(batches: seq<seq<Entry>>, newestFirst: bool, verified: Entry -> bool, txs: seq<Entry>) {
    && (forall e :: e in txs <==> Listed(Flatten(batches), verified, e))
    && KeyOrdered(txs, newestFirst)
  }

  lemma KeysFollowTime(e: Entry, f: Entry)
    requires e.timestamp < f.timestamp
    ensures LexLess(Key(e), Key(f)) <==> PadsBelow(e.timestamp, f.timestamp)
  {
    NumbersAsStrings(e.timestamp, f.timestamp, e.sender + "." + Decimal(e.nonce), f.sender + "." + Decimal(f.nonce));
  }

  // In the order of the keys, two entries are in order of time exactly if the earlier pads.
  lemma PairInOrder(txs: seq<Entry>, newestFirst: bool, i: nat, j: nat)
    requires KeyOrdered(txs, newestFirst) && i < j < |txs|
    ensures var first, second := if newestFirst then txs[j] else txs[i], if newestFirst then txs[i] else txs[j];
            && LexLess(Key(first), Key(second))
            && (first.timestamp > second.timestamp ==> !PadsBelow(second.timestamp, first.timestamp))
            && (first.timestamp < second.timestamp ==> PadsBelow(first.timestamp, second.timestamp))
  {
    var first, second := if newestFirst then txs[j] else txs[i], if newestFirst then txs[i] else txs[j];
    LexTrichotomy(Key(first), Key(second));
    if first.timestamp > second.timestamp {
      KeysFollowTime(second, first);
    } else if first.timestamp < second.timestamp {
      KeysFollowTime(first, second);
    }
  }

  lemma ChronologicalIfPadded(txs: seq<Entry>, newestFirst: bool)
    requires KeyOrdered(txs, newestFirst)
    requires forall e, f | e in txs && f in txs && e.timestamp < f.timestamp :: PadsBelow(e.timestamp, f.timestamp)
    ensures Chronological(txs, newestFirst)
  {
    forall i, j | 0 <= i < j < |txs|
      ensures if newestFirst then txs[i].timestamp >= txs[j].timestamp else txs[i].timestamp <= txs[j].timestamp
    {
      PairInOrder(txs, newestFirst, i, j);
    }
  }

  lemma PaddedIfChronological(txs: seq<Entry>, newestFirst: bool, e: Entry, f: Entry)
    requires KeyOrdered(txs, newestFirst) && Chronological(txs, newestFirst)
    requires e in txs && f in txs && e.timestamp < f.timestamp
    ensures PadsBelow(e.timestamp, f.timestamp)
  {
    var i :| 0 <= i < |txs| && txs[i] == e;
    var j :| 0 <= j < |txs| && txs[j] == f;
    if newestFirst {
      PairInOrder(txs, newestFirst, j, i);
    } else {
      PairInOrder(txs, newestFirst, i, j);
    }
  }

  /** The merged list is in order of time exactly if, of what the batches list, every earlier
      timestamp, padded with zeros to the width of any later one, is not above it: timestamps
      sort as strings. */
  lemma ChronologicalExactly(batches: seq<seq<Entry>>, newestFirst: bool, verified: Entry -> bool, txs: seq<Entry>)
    requires Collated(batches, newestFirst, verified, txs)
    ensures Chronological(txs, newestFirst) <==> TimestampsPad(batches, verified)
  {
    if TimestampsPad(batches, verified) {
      ChronologicalIfPadded(txs, newestFirst);
    }
    if Chronological(txs, newestFirst) {
      forall e, f | Listed(Flatten(batches), verified, e) && Listed(Flatten(batches), verified, f)
        ensures e.timestamp < f.timestamp ==> PadsBelow(e.timestamp, f.timestamp)
      {
        if e.timestamp < f.timestamp {
          PaddedIfChronological(txs, newestFirst, e, f);
        }
      }
    }
  }

  lemma {:induction false} ListedIsRead(entries: seq<Entry>, verified: Entry -> bool, e: Entry)
    requires Listed(entries, verified, e)
    ensures e in entries
  {
    if Key(entries[|entries| - 1]) == Key(e) {
      assert entries[|entries| - 1] in entries;
    } else {
      ListedIsRead(entries[..|entries| - 1], verified, e);
    }
  }

  /** In particular when all timestamps in the batches have the same number of digits. */
  lemma SameWidthIsChronological(batches: seq<seq<Entry>>, newestFirst: bool, verified: Entry -> bool, txs: seq<Entry>)
    requires Collated(batches, newestFirst, verified, txs)
    requires forall e, f | e in Flatten(batches) && f in Flatten(batches) ::
               DigitCount(e.timestamp) == DigitCount(f.timestamp)
    ensures Chronological(txs, newestFirst)
  {
    forall e, f | Listed(Flatten(batches), verified, e) && Listed(Flatten(batches), verified, f)
      ensures e.timestamp < f.timestamp ==> PadsBelow(e.timestamp, f.timestamp)
    {
      ListedIsRead(Flatten(batches), verified, e);
      ListedIsRead(Flatten(batches), verified, f);
      if e.timestamp < f.timestamp {
        SameWidthPadsBelow(e.timestamp, f.timestamp);
      }
    }
    ChronologicalExactly(batches, newestFirst, verified, txs);
  }

  lemma NineAndTenListed(a: Entry, b: Entry, verified: Entry -> bool)
    requires a.timestamp == 9 && b.timestamp == 10 && verified(a) && verified(b)
    ensures Key(a)[0] == '9' && Key(b)[0] == '1'
    ensures Listed(Flatten([[a, b]]), verified, a) && Listed(Flatten([[a, b]]), verified, b)
  {
    assert Decimal(10) == Decimal(1) + ['0'];
    assert Flatten([[a, b]][..0]) == [];
    assert Flatten([[a, b]]) == [a, b];
    assert [a, b][..1] == [a];
  }

  /** It is not when they differ: of 9 and 10, newest first, the 9 comes out first. */
  lemma NineAfterTen(a: Entry, b: Entry, verified: Entry -> bool, txs: seq<Entry>)
    requires a.timestamp == 9 && b.timestamp == 10 && verified(a) && verified(b)
    requires Collated([[a, b]], true, verified, txs)
    ensures exists i, j :: 0 <= i < j < |txs| && txs[i] == a && txs[j] == b
    ensures !Chronological(txs, true)
  {
    NineAndTenListed(a, b, verified);
    var i :| 0 <= i < |txs| && txs[i] == a;
    var j :| 0 <= j < |txs| && txs[j] == b;
    assert j < i ==> LexLess(Key(a), Key(b));
    assert i < j;
  }
}
