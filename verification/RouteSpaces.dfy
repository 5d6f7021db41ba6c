/** White space and plain text around a line, to the structural parser
    (internal/caddy/routes.go). */
module RouteSpaces {
  import opened Wrappers
  import opened Lines
  import opened Text
  import opened TextLines
  import opened RouteLex
  import opened Routes
  import opened RouteAddress

  lemma {:induction false} NoBackticks(l: string)
    requires '`' !in l
    ensures !OddBackticks(l)
  {
    if l != "" {
      assert l[0] in l && forall c :: c in l[1..] ==> c in l;
      NoBackticks(l[1..]);
    }
  }

  lemma {:induction false} BackticksConcat(a: string, b: string)
    ensures OddBackticks(a + b) == (OddBackticks(a) != OddBackticks(b))
  {
    if a == "" {
      assert a + b == b;
    } else {
      assert (a + b)[1..] == a[1..] + b;
      BackticksConcat(a[1..], b);
    }
  }

  lemma PlainStep(c: char, rest: string)
    requires !IsQuote(c) && c != '\\' && c != '#'
    ensures CodeFrom([c] + rest, None) == ConsCode([c], CodeFrom(rest, None))
  {
    assert ([c] + rest)[1..] == rest && ([c] + rest)[..1] == [c];
  }

  lemma {:induction false} PlainThen(a: string, b: string)
    requires PlainText(a)
    ensures CodeFrom(a + b, None) == ConsCode(a, CodeFrom(b, None))
  {
    hide CodeFrom;
    if a == "" {
      assert a + b == b;
      assert CodeFrom(b, None).Some? ==> a + CodeFrom(b, None).value == CodeFrom(b, None).value;
    } else {
      assert a[0] in a && forall c :: c in a[1..] ==> c in a;
      PlainThen(a[1..], b);
      PlainStep(a[0], a[1..] + b);
      assert [a[0]] + (a[1..] + b) == a + b;
      assert CodeFrom(b, None).Some? ==> [a[0]] + (a[1..] + CodeFrom(b, None).value) == a + CodeFrom(b, None).value;
    }
  }

  lemma {:induction false} NoBraceChars(s: string)
    requires PlainText(s) && '{' !in s && '}' !in s
    ensures Balanced(s)
  {
    if s != "" {
      assert s[0] in s && forall c :: c in s[1..] ==> c in s;
      NoBraceChars(s[1..]);
    }
  }

  lemma OneLineUnit(l: string)
    requires '\n' !in l
    ensures LinesOf(l) == [l] && (Unit(l) <==> !OddBackticks(l))
  {
    SplitLine(l, '\n');
  }

  // ---- white space around a line ----

  predicate Spaces(s: string) { forall c :: c in s ==> IsSpace(c) }

  lemma {:induction false} CodeBeforeSpaces(t: string, c: string, quote: Option<char>)
    requires Spaces(c) && (quote.Some? ==> IsQuote(quote.value)) && CodeFrom(t + c, quote).Some?
    ensures CodeFrom(t, quote).Some?
    ensures CodeFrom(t + c, quote).value == CodeFrom(t, quote).value ||
      CodeFrom(t + c, quote).value == CodeFrom(t, quote).value + c
    decreases |t|
  {
    if t == "" {
      assert t + c == c;
      SpacesRead(c, quote);
      assert "" + c == c;
    } else {
      var s := t + c;
      assert s[0] == t[0] && s[1..] == t[1..] + c && s[..1] == t[..1];
      if quote.Some? {
        CodeBeforeSpaces(t[1..], c, if t[0] == quote.value then None else quote);
        ConsSuffix(t[..1], CodeFrom(t[1..], if t[0] == quote.value then None else quote).value, c);
      } else if IsQuote(t[0]) {
        CodeBeforeSpaces(t[1..], c, Some(t[0]));
        ConsSuffix(t[..1], CodeFrom(t[1..], Some(t[0])).value, c);
      } else if t[0] == '\\' {
        if |t| == 1 {
          BackslashSpaces(c);
          assert t == "\\";
        } else {
          assert s[..2] == t[..2] && s[2..] == t[2..] + c;
          CodeBeforeSpaces(t[2..], c, None);
          ConsSuffix(t[..2], CodeFrom(t[2..], None).value, c);
        }
      } else if t[0] != '#' {
        CodeBeforeSpaces(t[1..], c, None);
        ConsSuffix(t[..1], CodeFrom(t[1..], None).value, c);
      }
    }
  }

  lemma ConsSuffix(a: string, b: string, c: string)
    ensures a + (b + c) == a + b + c
  {
  }

  lemma BackslashSpaces(c: string)
    requires Spaces(c)
    ensures CodeFrom("\\" + c, None) == Some("\\" + c) && CodeFrom("\\", None) == Some("\\")
  {
    var s := "\\" + c;
    if c != "" {
      assert s[..2] == "\\" + c[..1] && s[2..] == c[1..];
      assert c[0] in c && forall x :: x in c[1..] ==> x in c;
      SpacesRead(c[1..], None);
      assert s[..2] + c[1..] == s;
    } else {
      assert s == "\\";
    }
  }

  lemma {:induction false} SpacesRead(c: string, quote: Option<char>)
    requires Spaces(c) && (quote.Some? ==> IsQuote(quote.value))
    ensures CodeFrom(c, quote) == if quote.Some? then None else Some(c)
  {
    if c != "" {
      assert c[0] in c && forall x :: x in c[1..] ==> x in c;
      SpacesRead(c[1..], quote);
      assert c == c[..1] + c[1..];
    }
  }

  lemma SpaceHasNoBrace(s: string, quote: Option<char>)
    requires s != "" && IsSpace(s[0]) && (quote.Some? ==> IsQuote(quote.value))
    ensures BraceFrom(s, quote) == BraceFrom(s[1..], quote)
  {
  }

  lemma {:induction false} BracesBeforeSpaces(t: string, c: string, quote: Option<char>)
    requires Spaces(c) && (quote.Some? ==> IsQuote(quote.value))
    ensures BraceFrom(t + c, quote) == BraceFrom(t, quote)
    decreases |t| + |c|
  {
    if t == "" {
      assert t + c == c;
      if c != "" {
        assert c[0] in c && forall x :: x in c[1..] ==> x in c;
        SpaceHasNoBrace(c, quote);
        BracesBeforeSpaces("", c[1..], quote);
        assert "" + c[1..] == c[1..];
      }
    } else {
      var s := t + c;
      assert s[0] == t[0] && s[1..] == t[1..] + c;
      if quote.Some? {
        BracesBeforeSpaces(t[1..], c, if t[0] == quote.value then None else quote);
      } else if IsQuote(t[0]) {
        BracesBeforeSpaces(t[1..], c, Some(t[0]));
      } else if t[0] == '\\' {
        if |t| > 1 {
          assert s[2..] == t[2..] + c;
          BracesBeforeSpaces(t[2..], c, None);
        } else if c != "" {
          assert s[2..] == c[1..] && forall x :: x in c[1..] ==> x in c;
          BracesBeforeSpaces("", c[1..], None);
          assert "" + c[1..] == c[1..];
        }
      } else {
        BracesBeforeSpaces(t[1..], c, None);
      }
    }
  }

  lemma SpacesArePlain(a: string)
    requires Spaces(a) && '\n' !in a
    ensures Balanced(a)
  {
    NoBraceChars(a);
  }

  lemma {:induction false} LastWordAfter(a: string, y: string)
    requires a == "" || IsSpace(a[|a| - 1])
    ensures LastWord(a + y) == LastWord(y)
  {
    if y == "" {
      assert a + y == a;
    } else {
      assert (a + y)[..|a + y| - 1] == a + y[..|y| - 1];
      LastWordAfter(a, y[..|y| - 1]);
    }
  }

  lemma BracesAround(a: string, x: string, c: string)
    requires Spaces(a) && Spaces(c) && '\n' !in a
    ensures BraceNet(a + x + c) == BraceNet(x)
  {
    hide BraceFrom, PlainText;
    SpacesArePlain(a);
    assert a + x + c == a + (x + c);
    PlainBraces(a, x + c);
    BracesBeforeSpaces(x, c, None);
  }

  lemma RightOfSaid(x: string)
    requires TrimSpace(x) != ""
    ensures TrimRight(x, IsSpace) != ""
  {
    hide TrimRight, TrimLeft, Trim;
    TrimSpaceOfTrimRight(x);
    EmptyTrims();
  }

  lemma TrimRightAround(a: string, x: string, c: string)
    requires Spaces(c) && TrimSpace(x) != ""
    ensures TrimRight(a + x + c, IsSpace) == a + TrimRight(x, IsSpace) && TrimRight(x, IsSpace) != ""
  {
    hide TrimRight, TrimSpace;
    var r := TrimRight(x, IsSpace);
    var tail := RightPart(x, IsSpace);
    RightOfSaid(x);
    assert a + x + c == (a + r) + (tail + c);
    assert (a + r)[|a + r| - 1] == r[|r| - 1];
    assert forall y :: y in tail + c ==> IsSpace(y);
    TrimRightOf(a + r, tail + c, IsSpace);
  }

  lemma HeredocAround(a: string, x: string, c: string)
    requires Spaces(a) && Spaces(c) && TrimSpace(x) != ""
    ensures HeredocTerminator(a + x + c) == HeredocTerminator(x)
  {
    hide LastWord, TrimSpace, TrimRight;
    TrimRightAround(a, x, c);
    LastWordAfter(a, TrimRight(x, IsSpace));
  }

  /** White space around a line of code changes neither its words nor its braces. */
  lemma SpacesAround(a: string, x: string, c: string)
    requires Spaces(a) && Spaces(c) && '\n' !in a && TrimSpace(x) != ""
    ensures TrimSpace(a + x + c) == TrimSpace(x)
    ensures BraceNet(a + x + c) == BraceNet(x)
    ensures HeredocTerminator(a + x + c) == HeredocTerminator(x)
  {
    hide BraceNet, HeredocTerminator, Trim;
    TrimAround(a, x, c, IsSpace);
    BracesAround(a, x, c);
    HeredocAround(a, x, c);
  }

  lemma SpacesParity(a: string)
    requires Spaces(a)
    ensures !OddBackticks(a)
  {
    assert '`' !in a;
    NoBackticks(a);
  }
}
