/** Splitting on a separator and joining back: Go's strings.Split and Join. */
module Lines {

  function Split<T(==)>(s: seq<T>, sep: T): (r: seq<seq<T>>)
    ensures |r| >= 1
  {
    if s == [] then [[]]
    else
      var r := Split(s[1..], sep);
      if s[0] == sep then [[]] + r else [[s[0]] + r[0]] + r[1..]
  }

  lemma {:induction false} SplitPieces<T>(s: seq<T>, sep: T)
    ensures forall l :: l in Split(s, sep) ==> sep !in l
  {
    if s != [] {
      SplitPieces(s[1..], sep);
      var r := Split(s[1..], sep);
      assert forall l :: l in r[1..] ==> l in r;
    }
  }

  function Join<T>(ls: seq<seq<T>>, sep: T): seq<T> {
    if ls == [] then []
    else if |ls| == 1 then ls[0]
    else ls[0] + [sep] + Join(ls[1..], sep)
  }

  lemma {:induction false} JoinSplit<T>(s: seq<T>, sep: T)
    ensures Join(Split(s, sep), sep) == s
  {
    if s != [] {
      JoinSplit(s[1..], sep);
      var r := Split(s[1..], sep);
      if s[0] == sep {
        assert ([[]] + r)[1..] == r;
      } else if |r| > 1 {
        assert ([[s[0]] + r[0]] + r[1..])[1..] == r[1..];
      }
      assert s == [s[0]] + s[1..];
    }
  }

  /** The pieces after one more element in front. */
  function Prepend<T(==)>(x: T, sep: T, r: seq<seq<T>>): seq<seq<T>>
    requires r != []
  {
    if x == sep then [[]] + r else [[x] + r[0]] + r[1..]
  }

  lemma SplitCons<T>(x: T, s: seq<T>, sep: T)
    ensures Split([x] + s, sep) == Prepend(x, sep, Split(s, sep))
  {
    assert ([x] + s)[1..] == s;
  }

  lemma PrependConcat<T>(x: T, sep: T, r: seq<seq<T>>, q: seq<seq<T>>)
    requires r != []
    ensures Prepend(x, sep, r + q) == Prepend(x, sep, r) + q
  {
    assert (r + q)[1..] == r[1..] + q;
  }

  lemma {:induction false} SplitConcat<T>(a: seq<T>, sep: T, b: seq<T>)
    ensures Split(a + [sep] + b, sep) == Split(a, sep) + Split(b, sep)
  {
    if a == [] {
      assert a + [sep] + b == [sep] + b;
      SplitCons(sep, b, sep);
    } else {
      hide Split;
      var rest := a[1..] + [sep] + b;
      SplitConcat(a[1..], sep, b);
      SplitCons(a[0], rest, sep);
      SplitCons(a[0], a[1..], sep);
      PrependConcat(a[0], sep, Split(a[1..], sep), Split(b, sep));
      assert a + [sep] + b == [a[0]] + rest;
      assert a == [a[0]] + a[1..];
    }
  }

  lemma {:induction false} SplitLine<T>(l: seq<T>, sep: T)
    requires sep !in l
    ensures Split(l, sep) == [l]
  {
    if l != [] {
      assert forall x :: x in l[1..] ==> x in l;
      SplitLine(l[1..], sep);
      assert l == [l[0]] + l[1..];
    }
  }

  lemma {:induction false} SplitJoin<T>(ls: seq<seq<T>>, sep: T)
    requires ls != [] && forall l :: l in ls ==> sep !in l
    ensures Split(Join(ls, sep), sep) == ls
  {
    SplitLine(ls[0], sep);
    if |ls| > 1 {
      assert forall l :: l in ls[1..] ==> l in ls;
      SplitJoin(ls[1..], sep);
      SplitConcat(ls[0], sep, Join(ls[1..], sep));
      assert ls == [ls[0]] + ls[1..];
    } else {
      assert ls == [ls[0]];
    }
  }

  lemma {:induction false} JoinConcat<T>(a: seq<seq<T>>, b: seq<seq<T>>, sep: T)
    requires a != [] && b != []
    ensures Join(a + b, sep) == Join(a, sep) + [sep] + Join(b, sep)
  {
    if |a| > 1 {
      assert (a + b)[1..] == a[1..] + b;
      JoinConcat(a[1..], b, sep);
      assert Join(a + b, sep) == a[0] + [sep] + (Join(a[1..], sep) + [sep] + Join(b, sep));
    } else {
      assert (a + b)[1..] == b;
    }
  }
}
