/** The string keys under which collated transactions are sorted: decimal numbers, dots, and
    the order of strings. */
module Keys {
  import opened Sorting

  // ----- the order of strings -----

  predicate LexLess(a: string, b: string) {
    b != [] && (a == [] || a[0] < b[0] || (a[0] == b[0] && LexLess(a[1..], b[1..])))
  }

  predicate LexLe(a: string, b: string) {
    a == b || LexLess(a, b)
  }

  function LexOrder(): Order<string> {
    (a, b) => LexLe(a, b)
  }

  lemma {:induction false} LexTrichotomy(a: string, b: string)
    ensures LexLess(a, b) || a == b || LexLess(b, a)
    ensures !(LexLess(a, b) && LexLess(b, a)) && !(a == b && LexLess(a, b))
  {
    if a == [] || b == [] {
    } else {
      LexTrichotomy(a[1..], b[1..]);
      assert a == [a[0]] + a[1..] && b == [b[0]] + b[1..];
    }
  }

  lemma {:induction false} LexTransitive(a: string, b: string, c: string)
    requires LexLess(a, b) && LexLess(b, c)
    ensures LexLess(a, c)
  {
    if a == [] || a[0] != b[0] || b[0] != c[0] {
    } else {
      LexTransitive(a[1..], b[1..], c[1..]);
    }
  }

  /** What two strings start with in common does not decide their order. */
  lemma {:induction false} LexSamePrefix(p: string, a: string, b: string)
    ensures LexLess(p + a, p + b) <==> LexLess(a, b)
  {
    if p == [] {
      assert p + a == a && p + b == b;
    } else {
      LexSamePrefix(p[1..], a, b);
      assert (p + a)[1..] == p[1..] + a && (p + b)[1..] == p[1..] + b;
    }
  }

  /** The first character that differs decides, and an end comes before anything. */
  lemma FirstDifferenceDecides(p: string, a: string, b: string)
    requires a == [] || b == [] || a[0] != b[0]
    ensures LexLess(p + a, p + b) <==> b != [] && (a == [] || a[0] < b[0])
  {
    LexSamePrefix(p, a, b);
  }

  /** Two different strings of one length are in order whatever follows them. */
  lemma {:induction false} LexSameLength(a: string, b: string, x: string, y: string)
    requires |a| == |b| && a != b
    ensures LexLess(a + x, b + y) <==> LexLess(a, b)
  {
    assert (a + x)[0] == a[0] && (b + y)[0] == b[0];
    if a[0] != b[0] {
    } else {
      assert a == [a[0]] + a[1..] && b == [b[0]] + b[1..];
      LexSameLength(a[1..], b[1..], x, y);
      assert (a + x)[1..] == a[1..] + x && (b + y)[1..] == b[1..] + y;
    }
  }

  lemma LexOrderIsTotal()
    ensures TotalOrder(LexOrder())
  {
    forall a: string, b: string ensures (LexLe(a, b) || LexLe(b, a)) && (LexLe(a, b) && LexLe(b, a) ==> a == b) {
      LexTrichotomy(a, b);
    }
    forall a: string, b: string, c: string | LexLe(a, b) && LexLe(b, c) ensures LexLe(a, c) {
      if a != b && b != c {
        LexTransitive(a, b, c);
      }
    }
  }

  // ----- decimal numbers -----

  function Decimal(n: nat): (r: string)
    ensures r != []
  {
    if n < 10 then [('0' as int + n) as char] else Decimal(n / 10) + [('0' as int + n % 10) as char]
  }

  function DigitCount(n: nat): nat {
    |Decimal(n)|
  }

  function Pow10(n: nat): nat {
    if n == 0 then 1 else 10 * Pow10(n - 1)
  }

  predicate AllDigits(s: string) {
    forall i :: 0 <= i < |s| ==> '0' <= s[i] <= '9'
  }

  function DigitOf(c: char): int {
    c as int - '0' as int
  }

  // The value of the digits when zeros are appended up to the given width.
  function Padded(s: string, width: nat): int
    requires |s| <= width
  {
    if s == [] then 0 else DigitOf(s[0]) * Pow10(width - 1) + Padded(s[1..], width - 1)
  }

  lemma {:induction false} PaddedFits(s: string, width: nat)
    requires AllDigits(s) && |s| <= width
    ensures 0 <= Padded(s, width) < Pow10(width)
  {
    if s != [] {
      PaddedFits(s[1..], width - 1);
      DigitTimes(DigitOf(s[0]), 9, Pow10(width - 1));
    } else {
      Pow10Positive(width);
    }
  }

  lemma {:induction false} Pow10Positive(n: nat)
    ensures Pow10(n) >= 1
  {
    if n == 0 {
    } else {
      Pow10Positive(n - 1);
    }
  }

  lemma {:induction false} DigitTimes(d: int, e: int, p: nat)
    requires 0 <= d <= e
    ensures 0 <= d * p <= e * p
    ensures d < e ==> d * p + p <= e * p
    decreases e - d
  {
    if d < e {
      DigitTimes(d, e - 1, p);
      assert e * p == (e - 1) * p + p;
    } else {
      NoNegativeProduct(d, p);
    }
  }

  lemma NoNegativeProduct(d: nat, p: nat)
    ensures d * p >= 0
  {
  }

  lemma {:induction false} PaddedOfAppended(s: string, c: char, width: nat)
    requires |s| + 1 <= width
    ensures Padded(s + [c], width) == Padded(s, width) + DigitOf(c) * Pow10(width - |s| - 1)
  {
    if s != [] {
      PaddedOfAppended(s[1..], c, width - 1);
      assert (s + [c])[1..] == s[1..] + [c];
    } else {
      assert ([c])[1..] == [];
    }
  }

  lemma {:induction false} WiderByOne(s: string, width: nat)
    requires |s| <= width
    ensures Padded(s, width + 1) == 10 * Padded(s, width)
  {
    if s == [] {
    } else {
      WiderByOne(s[1..], width - 1);
      assert DigitOf(s[0]) * Pow10(width) == 10 * (DigitOf(s[0]) * Pow10(width - 1));
    }
  }

  lemma {:induction false} DigitsReadBack(n: nat)
    ensures AllDigits(Decimal(n)) && Padded(Decimal(n), DigitCount(n)) == n
  {
    if n < 10 {
    } else {
      var front, c := Decimal(n / 10), ('0' as int + n % 10) as char;
      DigitsReadBack(n / 10);
      WiderByOne(front, |front|);
      PaddedOfAppended(front, c, |front| + 1);
    }
    assert Pow10(0) == 1;
  }

  lemma TimesTen(n: nat, p: nat)
    ensures n * (10 * p) == 10 * (n * p)
  {
  }

  /** Reading back the decimal digits of a number gives the number, times a power of ten for
      the zeros appended. */
  lemma {:induction false} DecimalReadsBack(n: nat, zeros: nat)
    ensures AllDigits(Decimal(n))
    ensures Padded(Decimal(n), DigitCount(n) + zeros) == n * Pow10(zeros)
  {
    DigitsReadBack(n);
    if zeros > 0 {
      DecimalReadsBack(n, zeros - 1);
      WiderByOne(Decimal(n), DigitCount(n) + zeros - 1);
      TimesTen(n, Pow10(zeros - 1));
    } else {
      assert Pow10(0) == 1;
    }
  }

  lemma {:induction false} MoreDigitsForLarger(m: nat, n: nat)
    requires m <= n
    ensures DigitCount(m) <= DigitCount(n)
  {
    if m < 10 {
    } else {
      MoreDigitsForLarger(m / 10, n / 10);
    }
  }

  // ----- decimal numbers under the order of strings -----

  // A digit string followed by a dot comes before any longer one of at least its padded value.
  lemma {:induction false} SmallerComesFirst(u: string, v: string, a: string, b: string)
    requires AllDigits(u) && AllDigits(v) && |u| <= |v|
    requires Padded(u, |v|) < Padded(v, |v|) || (Padded(u, |v|) == Padded(v, |v|) && |u| < |v|)
    ensures LexLess(u + "." + a, v + b)
  {
    if u == [] {
      assert (u + "." + a)[0] == '.';
      assert (v + b)[0] == v[0];
    } else {
      var p := Pow10(|v| - 1);
      PaddedFits(u[1..], |v| - 1);
      PaddedFits(v[1..], |v| - 1);
      if DigitOf(v[0]) < DigitOf(u[0]) {
        DigitTimes(DigitOf(v[0]), DigitOf(u[0]), p);
      } else if u[0] == v[0] {
        SmallerComesFirst(u[1..], v[1..], a, b);
        assert (u + "." + a)[1..] == u[1..] + "." + a;
        assert (v + b)[1..] == v[1..] + b;
      }
      assert u[0] <= v[0];
    }
  }

  // And after any longer one of less.
  lemma {:induction false} LargerComesLast(u: string, v: string, a: string, b: string)
    requires AllDigits(u) && AllDigits(v) && |u| <= |v|
    requires Padded(u, |v|) > Padded(v, |v|)
    ensures LexLess(v + b, u + "." + a)
  {
    PaddedFits(v, |v|);
    var p := Pow10(|v| - 1);
    PaddedFits(u[1..], |v| - 1);
    PaddedFits(v[1..], |v| - 1);
    if DigitOf(u[0]) < DigitOf(v[0]) {
      DigitTimes(DigitOf(u[0]), DigitOf(v[0]), p);
    } else if u[0] == v[0] {
      LargerComesLast(u[1..], v[1..], a, b);
      assert (u + "." + a)[1..] == u[1..] + "." + a;
      assert (v + b)[1..] == v[1..] + b;
    }
    assert v[0] <= u[0];
  }

  // The smaller number padded with zeros to the width of the larger is still not above it.
  predicate PadsBelow(m: nat, n: nat) {
    m <= n && (MoreDigitsForLarger(m, n); m * Pow10(DigitCount(n) - DigitCount(m)) <= n)
  }

  /** Of two different numbers, each followed by a dot, the smaller comes first as a string
      exactly if, padded with zeros to the width of the larger, it is still not above it. */
  lemma NumbersAsStrings(m: nat, n: nat, a: string, b: string)
    requires m < n
    ensures LexLess(Decimal(m) + "." + a, Decimal(n) + "." + b) <==> PadsBelow(m, n)
  {
    var u, v := Decimal(m), Decimal(n);
    MoreDigitsForLarger(m, n);
    DecimalReadsBack(m, |v| - |u|);
    DecimalReadsBack(n, 0);
    assert Pow10(0) == 1;
    assert v + "." + b == v + ("." + b);
    if PadsBelow(m, n) {
      SmallerComesFirst(u, v, a, "." + b);
    } else {
      LargerComesLast(u, v, a, "." + b);
      LexTrichotomy(u + "." + a, v + "." + b);
    }
  }

  /** Numbers with the same number of digits sort as strings the way they sort as numbers. */
  lemma SameWidthPadsBelow(m: nat, n: nat)
    requires m <= n && DigitCount(m) == DigitCount(n)
    ensures PadsBelow(m, n)
  {
    assert Pow10(0) == 1;
  }

  // ----- keys of three parts -----

  predicate Dotless(s: string) {
    forall i :: 0 <= i < |s| ==> s[i] != '.'
  }

  lemma {:induction false} SplitAtDot(p: string, a: string, q: string, b: string)
    requires Dotless(p) && Dotless(q) && p + "." + a == q + "." + b
    ensures p == q && a == b
  {
    var s, t := p + "." + a, q + "." + b;
    if p == [] || q == [] {
      assert s[0] == t[0];
      assert p == [] && q == [];
      assert s[1..] == a && t[1..] == b;
    } else {
      assert s[0] == p[0] && t[0] == q[0];
      assert s[1..] == p[1..] + "." + a && t[1..] == q[1..] + "." + b;
      SplitAtDot(p[1..], a, q[1..], b);
      assert p == [p[0]] + p[1..] && q == [q[0]] + q[1..];
    }
  }

  lemma DecimalIsInjective(m: nat, n: nat)
    requires Decimal(m) == Decimal(n)
    ensures m == n
  {
    DecimalReadsBack(m, 0);
    DecimalReadsBack(n, 0);
    assert Pow10(0) == 1;
  }
}
