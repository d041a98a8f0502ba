/** Sorting by a given order, as ORDER BY and list.sort do. */
module Sorting {

  type Order<!T> = (T, T) -> bool

  ghost predicate TotalOrder<T(!new)>(le: Order<T>) {
    && (forall x, y :: le(x, y) || le(y, x))
    && (forall x, y, z :: le(x, y) && le(y, z) ==> le(x, z))
    && (forall x, y :: le(x, y) && le(y, x) ==> x == y)
  }

  ghost predicate Sorted<T>(xs: seq<T>, le: Order<T>) {
    forall i, j :: 0 <= i < j < |xs| ==> le(xs[i], xs[j])
  }

  function Insert<T>(x: T, xs: seq<T>, le: Order<T>): seq<T> {
    if xs == [] || le(x, xs[0]) then [x] + xs else [xs[0]] + Insert(x, xs[1..], le)
  }

  function Sort<T>(xs: seq<T>, le: Order<T>): seq<T> {
    if xs == [] then [] else Insert(xs[0], Sort(xs[1..], le), le)
  }

  function Reverse<T>(xs: seq<T>): (r: seq<T>)
    ensures |r| == |xs|
  {
    if xs == [] then [] else Reverse(xs[1..]) + [xs[0]]
  }

  lemma {:induction false} InsertKeepsElements<T>(x: T, xs: seq<T>, le: Order<T>)
    ensures multiset(Insert(x, xs, le)) == multiset(xs) + multiset{x}
  {
    if xs == [] {
    } else {
      assert xs == [xs[0]] + xs[1..];
      InsertKeepsElements(x, xs[1..], le);
    }
  }

  lemma {:induction false} InsertKeepsSorted<T(!new)>(x: T, xs: seq<T>, le: Order<T>)
    requires TotalOrder(le) && Sorted(xs, le)
    ensures Sorted(Insert(x, xs, le), le)
  {
    if xs == [] || le(x, xs[0]) {
    } else {
      var rest := Insert(x, xs[1..], le);
      InsertKeepsSorted(x, xs[1..], le);
      InsertKeepsElements(x, xs[1..], le);
      forall i | 0 <= i < |rest| ensures le(xs[0], rest[i]) {
        assert rest[i] in multiset(rest);
      }
    }
  }

  /** Sorting rearranges and orders. */
  lemma {:induction false} SortSorts<T(!new)>(xs: seq<T>, le: Order<T>)
    requires TotalOrder(le)
    ensures multiset(Sort(xs, le)) == multiset(xs) && |Sort(xs, le)| == |xs| && Sorted(Sort(xs, le), le)
  {
    if xs == [] {
    } else {
      SortSorts(xs[1..], le);
      InsertKeepsElements(xs[0], Sort(xs[1..], le), le);
      InsertKeepsSorted(xs[0], Sort(xs[1..], le), le);
      assert xs == [xs[0]] + xs[1..];
    }
    assert |multiset(Sort(xs, le))| == |Sort(xs, le)|;
  }

  lemma TailElements<T>(xs: seq<T>)
    requires xs != []
    ensures multiset(xs[1..]) == multiset(xs) - multiset{xs[0]}
  {
    assert xs == [xs[0]] + xs[1..];
  }

  lemma HeadIsLeast<T(!new)>(xs: seq<T>, x: T, le: Order<T>)
    requires TotalOrder(le) && Sorted(xs, le) && x in multiset(xs)
    ensures xs != [] && le(xs[0], x)
  {
    var i :| 0 <= i < |xs| && xs[i] == x;
  }

  /** A sorted list is determined by its elements. */
  lemma {:induction false} SortedIsUnique<T(!new)>(xs: seq<T>, ys: seq<T>, le: Order<T>)
    requires TotalOrder(le) && Sorted(xs, le) && Sorted(ys, le) && multiset(xs) == multiset(ys)
    ensures xs == ys
  {
    assert |multiset(xs)| == |xs| && |multiset(ys)| == |ys|;
    if xs == [] {
    } else {
      HeadIsLeast(ys, xs[0], le);
      HeadIsLeast(xs, ys[0], le);
      TailElements(xs);
      TailElements(ys);
      SortedIsUnique(xs[1..], ys[1..], le);
    }
  }

  lemma {:induction false} ReverseAt<T>(xs: seq<T>, i: nat)
    requires i < |xs|
    ensures Reverse(xs)[i] == xs[|xs| - 1 - i]
  {
    if i == |xs| - 1 {
    } else {
      ReverseAt(xs[1..], i);
    }
  }

  lemma {:induction false} ReverseKeepsElements<T>(xs: seq<T>)
    ensures multiset(Reverse(xs)) == multiset(xs)
  {
    if xs == [] {
    } else {
      ReverseKeepsElements(xs[1..]);
      assert xs == [xs[0]] + xs[1..];
    }
  }

  lemma ReverseSorted<T>(xs: seq<T>, le: Order<T>, ge: Order<T>)
    requires Sorted(xs, ge) && forall x, y | x in xs && y in xs :: ge(x, y) ==> le(y, x)
    ensures Sorted(Reverse(xs), le)
  {
    var flipped := Reverse(xs);
    forall i, j | 0 <= i < j < |flipped| ensures le(flipped[i], flipped[j]) {
      ReverseAt(xs, i);
      ReverseAt(xs, j);
    }
  }
}
