/** What squeezing and trimming a text does to its lines. */
module TextLines {
  import opened Lines
  import opened Text

  function LinesOf(s: string): (r: seq<string>)
    ensures |r| >= 1
  {
    Split(s, '\n')
  }

  function Unlines(ls: seq<string>): string { Join(ls, '\n') }

  function Front<T>(s: seq<T>): seq<T>
    requires s != []
  {
    s[..|s| - 1]
  }

  function Last<T>(s: seq<T>): T
    requires s != []
  {
    s[|s| - 1]
  }

  /** A list of lines none of which holds a newline. */
  predicate AreLines(ls: seq<string>) {
    ls != [] && forall l :: l in ls ==> '\n' !in l
  }

  lemma LinesOfText(s: string)
    ensures AreLines(LinesOf(s)) && Unlines(LinesOf(s)) == s
  {
    SplitPieces(s, '\n');
    JoinSplit(s, '\n');
  }

  lemma LinesOfUnlines(ls: seq<string>)
    requires AreLines(ls)
    ensures LinesOf(Unlines(ls)) == ls
  {
    SplitJoin(ls, '\n');
  }

  // ---- squeezing ----

  /** Squeeze on lines that all end in a newline: at most one empty line of a run
      stays, two at the very start. */
  function SqueezeLines(ls: seq<string>, n: nat): seq<string> {
    if ls == [] then []
    else if ls[0] != "" then [ls[0]] + SqueezeLines(ls[1..], 1)
    else if n >= 2 then SqueezeLines(ls[1..], n)
    else [""] + SqueezeLines(ls[1..], n + 1)
  }

  function NewlinesAfter(ls: seq<string>, n: nat): nat {
    if ls == [] then n
    else if ls[0] != "" then NewlinesAfter(ls[1..], 1)
    else if n >= 2 then NewlinesAfter(ls[1..], n)
    else NewlinesAfter(ls[1..], n + 1)
  }

  lemma {:induction false} SqueezeLinesConcat(a: seq<string>, b: seq<string>, n: nat)
    ensures SqueezeLines(a + b, n) == SqueezeLines(a, n) + SqueezeLines(b, NewlinesAfter(a, n))
    ensures NewlinesAfter(a + b, n) == NewlinesAfter(b, NewlinesAfter(a, n))
  {
    if a == [] {
      assert a + b == b;
    } else {
      assert (a + b)[1..] == a[1..] + b;
      SqueezeLinesConcat(a[1..], b, 1);
      SqueezeLinesConcat(a[1..], b, n);
      SqueezeLinesConcat(a[1..], b, n + 1);
    }
  }

  lemma SqueezeLinesHead(l: string, c: char, ls: seq<string>, n: nat)
    requires l != "" || n == 0
    ensures SqueezeLines([[c] + l] + ls, n) == [[c] + l] + SqueezeLines(ls, 1)
    ensures SqueezeLines([l] + ls, n) == [l] + SqueezeLines(ls, 1)
  {
    assert ([[c] + l] + ls)[1..] == ls && ([l] + ls)[1..] == ls;
  }

  /** A newline in front of the text is an empty line in front of its lines. */
  lemma LinesAfterNewline(t: string)
    ensures LinesOf("\n" + t) == [""] + LinesOf(t)
    ensures Front([""] + LinesOf(t)) == [""] + Front(LinesOf(t)) && Last([""] + LinesOf(t)) == Last(LinesOf(t))
  {
    SplitCons('\n', t, '\n');
  }

  /** Another character in front of the text joins its first line. */
  lemma LinesAfterChar(c: char, t: string)
    requires c != '\n'
    ensures var r := LinesOf(t); LinesOf([c] + t) == [[c] + r[0]] + r[1..]
  {
    SplitCons(c, t, '\n');
  }

  lemma SqueezeNewline(t: string, n: nat)
    ensures Squeeze("\n" + t, n) == if n >= 2 then Squeeze(t, n) else "\n" + Squeeze(t, n + 1)
  {
    assert ("\n" + t)[1..] == t;
  }

  lemma SqueezeChar(c: char, t: string, n: nat)
    requires c != '\n'
    ensures Squeeze([c] + t, n) == [c] + Squeeze(t, 0)
  {
    assert ([c] + t)[1..] == t;
  }

  lemma SqueezeEmptyLine(ls: seq<string>, n: nat)
    ensures SqueezeLines([""] + ls, n) == if n >= 2 then SqueezeLines(ls, n) else [""] + SqueezeLines(ls, n + 1)
  {
    assert ([""] + ls)[1..] == ls;
  }

  /** The first line grows, and the rest of the squeezed lines stays. */
  lemma SqueezeFirst(c: char, r: seq<string>, n: nat)
    requires r != []
    ensures var grown, squeezed := [[c] + r[0]] + r[1..], SqueezeLines(Front(r), 0) + [Last(r)];
      SqueezeLines(Front(grown), n) + [Last(grown)] == [[c] + squeezed[0]] + squeezed[1..]
  {
    var grown := [[c] + r[0]] + r[1..];
    if |r| == 1 {
      assert Front(grown) == [] && Front(r) == [];
    } else {
      var mid := r[1..|r| - 1];
      assert Front(r) == [r[0]] + mid && Front(grown) == [[c] + r[0]] + mid;
      SqueezeLinesHead(r[0], c, mid, 0);
      assert ([[c] + r[0]] + mid)[1..] == mid;
      assert SqueezeLines(Front(grown), n) == [[c] + r[0]] + SqueezeLines(mid, 1);
    }
  }

  lemma {:induction false} SplitSqueeze(s: string, n: nat)
    ensures LinesOf(Squeeze(s, n)) == SqueezeLines(Front(LinesOf(s)), n) + [Last(LinesOf(s))]
  {
    hide Squeeze, LinesOf;
    if s == "" {
      SqueezeNothing(n);
    } else {
      var t := s[1..];
      if s[0] == '\n' {
        assert s == "\n" + t;
        LinesAfterNewline(t);
        SqueezeNewline(t, n);
        SqueezeEmptyLine(Front(LinesOf(t)), n);
        SplitSqueeze(t, n);
        SplitSqueeze(t, n + 1);
        LinesAfterNewline(Squeeze(t, n + 1));
      } else {
        assert s == [s[0]] + t;
        SplitSqueeze(t, 0);
        SqueezeChar(s[0], t, n);
        LinesAfterChar(s[0], t);
        LinesAfterChar(s[0], Squeeze(t, 0));
        SqueezeFirst(s[0], LinesOf(t), n);
      }
    }
  }

  lemma SqueezeNothing(n: nat)
    ensures Squeeze("", n) == "" && LinesOf("") == [""] && SqueezeLines([], n) == []
  {
  }

  /** No two empty lines in a row. */
  predicate NoRuns(ls: seq<string>) {
    forall i :: 0 <= i < |ls| - 1 ==> ls[i] != "" || ls[i + 1] != ""
  }

  lemma {:induction false} SqueezeNoRuns(ls: seq<string>, n: nat)
    requires NoRuns(ls) && n <= 2 && (n == 2 && ls != [] ==> ls[0] != "")
    ensures SqueezeLines(ls, n) == ls
  {
    if ls != [] {
      var rest := ls[1..];
      forall i | 0 <= i < |rest| - 1 ensures rest[i] != "" || rest[i + 1] != "" {
        assert ls[i + 1] != "" || ls[i + 1 + 1] != "";
      }
      assert |ls| > 1 ==> ls[1..][0] == ls[1];
      if ls[0] != "" {
        SqueezeNoRuns(ls[1..], 1);
      } else if n == 1 {
        SqueezeNoRuns(ls[1..], 2);
      } else {
        SqueezeNoRuns(ls[1..], 1);
      }
      assert ls == [ls[0]] + ls[1..];
    }
  }

  /** What squeezing leaves of lines after a newline has no runs. */
  lemma {:induction false} SqueezedNoRuns(ls: seq<string>, n: nat)
    requires 1 <= n <= 2
    ensures NoRuns(SqueezeLines(ls, n))
    ensures n == 2 && SqueezeLines(ls, n) != [] ==> SqueezeLines(ls, n)[0] != ""
  {
    if ls != [] {
      if ls[0] != "" {
        SqueezedNoRuns(ls[1..], 1);
      } else {
        SqueezedNoRuns(ls[1..], 2);
      }
    }
  }

  lemma SqueezeTwice(ls: seq<string>)
    ensures SqueezeLines(SqueezeLines(ls, 1), 1) == SqueezeLines(ls, 1)
  {
    SqueezedNoRuns(ls, 1);
    SqueezeNoRuns(SqueezeLines(ls, 1), 1);
  }

  /** The lines that are not empty. */
  function NonEmpty(ls: seq<string>): seq<string> {
    if ls == [] then [] else NonEmpty(ls[..|ls| - 1]) + if ls[|ls| - 1] == "" then [] else [ls[|ls| - 1]]
  }

  lemma {:induction false} NonEmptyConcat(a: seq<string>, b: seq<string>)
    ensures NonEmpty(a + b) == NonEmpty(a) + NonEmpty(b)
  {
    if b == [] {
      assert a + b == a;
    } else {
      assert (a + b)[..|a + b| - 1] == a + b[..|b| - 1];
      NonEmptyConcat(a, b[..|b| - 1]);
    }
  }

  lemma {:induction false} SqueezeKeepsNonEmpty(ls: seq<string>, n: nat)
    ensures NonEmpty(SqueezeLines(ls, n)) == NonEmpty(ls)
  {
    if ls != [] {
      assert ls == [ls[0]] + ls[1..];
      NonEmptyConcat([ls[0]], ls[1..]);
      if ls[0] != "" {
        SqueezeKeepsNonEmpty(ls[1..], 1);
        NonEmptyConcat([ls[0]], SqueezeLines(ls[1..], 1));
      } else if n >= 2 {
        SqueezeKeepsNonEmpty(ls[1..], n);
      } else {
        SqueezeKeepsNonEmpty(ls[1..], n + 1);
        NonEmptyConcat([""], SqueezeLines(ls[1..], n + 1));
      }
    }
  }

  // ---- trimming newlines at the end ----

  function TrimRightLines(ls: seq<string>): (r: seq<string>)
    requires ls != []
    ensures r != [] && r <= ls
    ensures forall i :: |r| <= i < |ls| ==> ls[i] == ""
    ensures |r| > 1 ==> Last(r) != ""
  {
    if |ls| > 1 && Last(ls) == "" then TrimRightLines(Front(ls)) else ls
  }

  lemma SplitSnoc(t: string)
    ensures LinesOf(t + "\n") == LinesOf(t) + [""]
  {
    SplitConcat(t, '\n', "");
    assert t + ['\n'] + "" == t + "\n";
  }

  lemma {:induction false} LastLine(s: string)
    requires s != "" && s[|s| - 1] != '\n'
    ensures Last(LinesOf(s)) != "" && Last(Last(LinesOf(s))) == s[|s| - 1]
  {
    if |s| > 1 {
      LastLine(s[1..]);
      assert s[1..][|s[1..]| - 1] == s[|s| - 1];
    } else {
      assert s[1..] == "";
      assert LinesOf(s[1..]) == [""];
    }
  }

  lemma {:induction false} SplitTrimRight(s: string)
    ensures LinesOf(TrimRight(s, IsNewline)) == TrimRightLines(LinesOf(s))
  {
    if s != "" && s[|s| - 1] == '\n' {
      var t := s[..|s| - 1];
      SplitTrimRight(t);
      assert s == t + "\n";
      SplitSnoc(t);
      assert Front(LinesOf(t) + [""]) == LinesOf(t);
    } else if s != "" {
      LastLine(s);
    }
  }

  // ---- trimming white space ----

  predicate Blank(l: string) { TrimSpace(l) == "" }

  function TrimLinesLeft(ls: seq<string>): (r: seq<string>)
    requires ls != []
    ensures r != []
  {
    if |ls| > 1 && TrimLeft(ls[0], IsSpace) == "" then TrimLinesLeft(ls[1..])
    else [TrimLeft(ls[0], IsSpace)] + ls[1..]
  }

  function TrimLinesRight(ls: seq<string>): (r: seq<string>)
    requires ls != []
    ensures r != []
  {
    if |ls| > 1 && TrimRight(Last(ls), IsSpace) == "" then TrimLinesRight(Front(ls))
    else Front(ls) + [TrimRight(Last(ls), IsSpace)]
  }

  lemma TrimLinesLeftCons(c: char, ls: seq<string>)
    requires ls != []
    ensures IsSpace(c) ==> TrimLinesLeft([[c] + ls[0]] + ls[1..]) == TrimLinesLeft(ls)
    ensures TrimLinesLeft([""] + ls) == TrimLinesLeft(ls)
  {
    assert ([c] + ls[0])[1..] == ls[0];
    var more := [[c] + ls[0]] + ls[1..];
    assert more[1..] == ls[1..];
    assert ([""] + ls)[1..] == ls;
  }

  lemma {:induction false} SplitTrimSpaceLeft(s: string)
    ensures LinesOf(TrimLeft(s, IsSpace)) == TrimLinesLeft(LinesOf(s))
  {
    if s != "" {
      var r := LinesOf(s[1..]);
      if IsSpace(s[0]) {
        SplitTrimSpaceLeft(s[1..]);
        TrimLinesLeftCons(s[0], r);
      } else {
        assert LinesOf(s)[0] == [s[0]] + r[0];
        assert TrimLeft([s[0]] + r[0], IsSpace) == [s[0]] + r[0];
        assert LinesOf(s) == [LinesOf(s)[0]] + LinesOf(s)[1..];
      }
    }
  }

  lemma {:induction false} SplitSnocChar(s: string, c: char)
    requires c != '\n'
    ensures LinesOf(s + [c]) == Front(LinesOf(s)) + [Last(LinesOf(s)) + [c]]
  {
    if s == "" {
      assert s + [c] == [c] + "";
      SplitCons(c, "", '\n');
      assert LinesOf("") == [""] && [c] + "" == "" + [c];
    } else {
      assert (s + [c])[1..] == s[1..] + [c];
      SplitSnocChar(s[1..], c);
      var r := LinesOf(s[1..]);
      if |r| == 1 && s[0] != '\n' {
        assert [s[0]] + (r[0] + [c]) == ([s[0]] + r[0]) + [c];
      }
    }
  }

  lemma TrimLinesRightSnoc(c: char, ls: seq<string>)
    requires ls != []
    ensures IsSpace(c) ==> TrimLinesRight(Front(ls) + [Last(ls) + [c]]) == TrimLinesRight(ls)
    ensures TrimLinesRight(ls + [""]) == TrimLinesRight(ls)
  {
    assert Front(Last(ls) + [c]) == Last(ls);
    var more := Front(ls) + [Last(ls) + [c]];
    assert Front(more) == Front(ls);
    assert Front(ls + [""]) == ls;
  }

  lemma {:induction false} SplitTrimSpaceRight(s: string)
    ensures LinesOf(TrimRight(s, IsSpace)) == TrimLinesRight(LinesOf(s))
  {
    if s != "" {
      var t, c := s[..|s| - 1], s[|s| - 1];
      assert s == t + [c];
      if IsSpace(c) {
        SplitTrimSpaceRight(t);
        if c == '\n' {
          SplitSnoc(t);
        } else {
          SplitSnocChar(t, c);
        }
        TrimLinesRightSnoc(c, LinesOf(t));
      } else {
        SplitSnocChar(t, c);
        var last := Last(LinesOf(t)) + [c];
        assert TrimRight(last, IsSpace) == last;
        assert LinesOf(s) == Front(LinesOf(s)) + [last];
      }
    }
  }

  lemma SplitTrimSpace(s: string)
    ensures LinesOf(TrimSpace(s)) == TrimLinesRight(TrimLinesLeft(LinesOf(s)))
  {
    SplitTrimSpaceLeft(s);
    SplitTrimSpaceRight(TrimLeft(s, IsSpace));
  }

  lemma SplitEmpty()
    ensures LinesOf("") == [""]
  {
  }

  lemma {:induction false} SqueezedMembers(ls: seq<string>, n: nat)
    ensures forall l :: l in SqueezeLines(ls, n) ==> l in ls
  {
    if ls != [] {
      SqueezedMembers(ls[1..], 1);
      SqueezedMembers(ls[1..], n);
      SqueezedMembers(ls[1..], n + 1);
    }
  }

  /** Reading trims; reading again changes nothing. */
  lemma ReadTwice(s: string)
    ensures TrimSpace(TrimSpace(s)) == TrimSpace(s)
  {
    hide Trim;
    TrimEnds(s, IsSpace);
    TrimTrimmed(TrimSpace(s), IsSpace);
  }
}
