/** Orders, a stable sort and a counting fact shared by the retention modules. */
module Ordering {

  /** Byte-wise string order, the order Go's `<` has on strings. */
  predicate StrLess(a: string, b: string)
    decreases |a|
  {
    b != "" && (a == "" || a[0] < b[0] || (a[0] == b[0] && StrLess(a[1..], b[1..])))
  }

  lemma {:induction false} StrLessIrreflexive(a: string)
    ensures !StrLess(a, a)
    decreases |a|
  {
    if a != "" {
      StrLessIrreflexive(a[1..]);
    }
  }

  lemma {:induction false} StrLessTransitive(a: string, b: string, c: string)
    requires StrLess(a, b) && StrLess(b, c)
    ensures StrLess(a, c)
    decreases |a|
  {
    if a != "" && a[0] == b[0] && b[0] == c[0] {
      StrLessTransitive(a[1..], b[1..], c[1..]);
    }
  }

  lemma {:induction false} StrLessTotal(a: string, b: string)
    ensures StrLess(a, b) || a == b || StrLess(b, a)
    decreases |a|
  {
    if a != "" && b != "" && a[0] == b[0] {
      StrLessTotal(a[1..], b[1..]);
      assert a == [a[0]] + a[1..] && b == [b[0]] + b[1..];
    }
  }

  /** The shorter of two strings one of which starts the other, or the one with the
      smaller character where they first differ. */
  lemma {:induction false} StrLessAt(a: string, b: string, n: nat)
    requires n <= |a| && n <= |b| && a[..n] == b[..n]
    requires n < |a| && n < |b| ==> a[n] != b[n]
    ensures StrLess(a, b) <==> n < |b| && (n == |a| || a[n] < b[n])
  {
    if n > 0 {
      assert a[0] == a[..n][0] == b[..n][0] == b[0];
      assert a[1..][..n - 1] == a[..n][1..] && b[1..][..n - 1] == b[..n][1..];
      StrLessAt(a[1..], b[1..], n - 1);
    }
  }

  ghost predicate StrictWeak<T(!new)>(before: (T, T) -> bool) {
    && (forall x :: !before(x, x))
    && (forall x, y, z :: before(x, y) && before(y, z) ==> before(x, z))
    && (forall x, y, z :: before(x, z) ==> before(x, y) || before(y, z))
  }

  ghost predicate SortedBy<T>(before: (T, T) -> bool, s: seq<T>) {
    forall i, j :: 0 <= i < j < |s| ==> !before(s[j], s[i])
  }

  /** Puts x in front of the first element that x need not follow. */
  function InsertBy<T>(before: (T, T) -> bool, x: T, s: seq<T>): seq<T> {
    if s == [] then [x]
    else if before(s[0], x) then [s[0]] + InsertBy(before, x, s[1..])
    else [x] + s
  }

  /** The stable sort: what `sort.SliceStable` leaves in its slice. */
  function SortBy<T>(before: (T, T) -> bool, s: seq<T>): seq<T> {
    if s == [] then [] else InsertBy(before, s[0], SortBy(before, s[1..]))
  }

  lemma {:induction false} InsertByMultiset<T>(before: (T, T) -> bool, x: T, s: seq<T>)
    ensures multiset(InsertBy(before, x, s)) == multiset{x} + multiset(s)
    ensures |InsertBy(before, x, s)| == |s| + 1
  {
    if s != [] {
      assert s == [s[0]] + s[1..];
      if before(s[0], x) {
        InsertByMultiset(before, x, s[1..]);
      }
    }
  }

  lemma {:induction false} SortByMultiset<T>(before: (T, T) -> bool, s: seq<T>)
    ensures multiset(SortBy(before, s)) == multiset(s)
    ensures |SortBy(before, s)| == |s|
  {
    if s != [] {
      SortByMultiset(before, s[1..]);
      InsertByMultiset(before, s[0], SortBy(before, s[1..]));
      assert s == [s[0]] + s[1..];
    }
  }

  lemma SortByElements<T>(before: (T, T) -> bool, s: seq<T>)
    ensures forall x :: x in SortBy(before, s) <==> x in s
  {
    SortByMultiset(before, s);
    assert forall x :: x in SortBy(before, s) <==> x in multiset(SortBy(before, s));
    assert forall x :: x in s <==> x in multiset(s);
  }

  lemma {:induction false} InsertBySorted<T(!new)>(before: (T, T) -> bool, x: T, s: seq<T>)
    requires StrictWeak(before) && SortedBy(before, s)
    ensures SortedBy(before, InsertBy(before, x, s))
  {
    if s != [] && before(s[0], x) {
      InsertBySorted(before, x, s[1..]);
      InsertByMultiset(before, x, s[1..]);
      var t := InsertBy(before, x, s[1..]);
      forall j | 0 <= j < |t| ensures !before(t[j], s[0]) {
        assert t[j] in multiset(t);
        assert t[j] == x || t[j] in s[1..];
      }
    }
  }

  lemma {:induction false} SortBySorted<T(!new)>(before: (T, T) -> bool, s: seq<T>)
    requires StrictWeak(before)
    ensures SortedBy(before, SortBy(before, s))
  {
    if s != [] {
      SortBySorted(before, s[1..]);
      InsertBySorted(before, s[0], SortBy(before, s[1..]));
    }
  }

  /** sort.SliceStable on a slice its caller keeps. */
  method SortInPlace<T>(before: (T, T) -> bool, a: array<T>)
    modifies a
    ensures a[..] == SortBy(before, old(a[..]))
  {
    var sorted := SortBy(before, a[..]);
    SortByMultiset(before, a[..]);
    forall i | 0 <= i < a.Length {
      a[i] := sorted[i];
    }
  }

  /** The elements of s that fewer than n others precede. */
  ghost function Above<T>(newer: (T, T) -> bool, s: set<T>, x: T): set<T> {
    set y | y in s && newer(y, x)
  }

  ghost function TopN<T>(newer: (T, T) -> bool, s: set<T>, n: int): set<T> {
    set x | x in s && |Above(newer, s, x)| < n
  }

  ghost predicate StrictTotalOn<T>(newer: (T, T) -> bool, s: set<T>) {
    && (forall x :: x in s ==> !newer(x, x))
    && (forall x, y, z :: x in s && y in s && z in s && newer(x, y) && newer(y, z) ==> newer(x, z))
    && (forall x, y :: x in s && y in s && x != y ==> newer(x, y) || newer(y, x))
  }

  lemma {:induction false} OldestExists<T>(newer: (T, T) -> bool, s: set<T>) returns (m: T)
    requires s != {} && StrictTotalOn(newer, s)
    ensures m in s && forall x :: x in s && x != m ==> newer(x, m)
    decreases |s|
  {
    m :| m in s;
    var rest := s - {m};
    if rest != {} {
      var k := OldestExists(newer, rest);
      if newer(m, k) {
        m := k;
      }
    }
  }

  /** In a finite order n elements have a rank below n, or all of them. */
  lemma {:induction false} TopNSize<T>(newer: (T, T) -> bool, s: set<T>, n: nat)
    requires StrictTotalOn(newer, s)
    ensures |TopN(newer, s, n)| == if |s| < n then |s| else n
    decreases |s|
  {
    if |s| <= n {
      forall x | x in s ensures |Above(newer, s, x)| < n {
        SubsetSize(Above(newer, s, x), s - {x});
      }
      assert TopN(newer, s, n) == s;
    } else {
      var m := OldestExists(newer, s);
      var rest := s - {m};
      TopNSize(newer, rest, n);
      assert Above(newer, s, m) == rest;
      forall x | x in rest ensures Above(newer, s, x) == Above(newer, rest, x) {
        assert newer(x, m);
        assert newer(x, m) && newer(m, x) ==> newer(x, x);
      }
      assert TopN(newer, s, n) == TopN(newer, rest, n);
    }
  }

  lemma {:induction false} SubsetSize<T>(a: set<T>, b: set<T>)
    requires a <= b
    ensures |a| <= |b|
    ensures |a| == |b| ==> a == b
    decreases b
  {
    if a != {} {
      var x :| x in a;
      SubsetSize(a - {x}, b - {x});
    }
    assert b == a + (b - a);
  }

  ghost function Preceding<T>(before: (T, T) -> bool, s: seq<T>, y: T): set<T> {
    set x | x in s && before(x, y)
  }

  /** In a strictly sorted list an element's position is its rank. */
  lemma RankOfSorted<T(!new)>(before: (T, T) -> bool, s: seq<T>, i: nat)
    requires i < |s|
    requires forall a, b :: 0 <= a < b < |s| ==> before(s[a], s[b])
    requires forall x, y :: !before(x, x) && (before(x, y) ==> !before(y, x))
    ensures Preceding(before, s, s[i]) == set j | 0 <= j < i :: s[j]
    ensures |Preceding(before, s, s[i])| == i
  {
    forall x | x in s && before(x, s[i]) ensures x in (set j | 0 <= j < i :: s[j]) {
      var j :| 0 <= j < |s| && s[j] == x;
      assert j < i;
    }
    assert Preceding(before, s, s[i]) == set j | 0 <= j < i :: s[j];
    PrefixSize(before, s, i);
  }

  lemma {:induction false} PrefixSize<T(!new)>(before: (T, T) -> bool, s: seq<T>, i: nat)
    requires i <= |s|
    requires forall a, b :: 0 <= a < b < |s| ==> before(s[a], s[b])
    requires forall x :: !before(x, x)
    ensures |set j | 0 <= j < i :: s[j]| == i
  {
    if i > 0 {
      PrefixSize(before, s, i - 1);
      assert (set j | 0 <= j < i :: s[j]) == (set j | 0 <= j < i - 1 :: s[j]) + {s[i - 1]};
    }
  }
}
