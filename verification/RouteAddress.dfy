/** The address line a partly adopted block is rewritten to
    (internal/caddy/routes.go): it reads back as the kept addresses. */
module RouteAddress {
  import opened Wrappers
  import opened Lines
  import opened Text
  import opened TextLines
  import opened Regions
  import opened RouteLex
  import opened Routes

  /** No quote, escape, comment or newline: what the lexer reads as it stands. */
  predicate PlainText(s: string) {
    forall c :: c in s ==> !IsQuote(c) && c != '\\' && c != '#' && c != '\n'
  }

  /** An address that stays one on a line of its own. */
  predicate PlainAddress(a: string) {
    && PlainText(a) && BraceNet(a) == 0
    && a != "" && a[0] != '(' && a != "import" && !("import " <= a)
  }

  /** What splitting an address line yields: no blanks around, no comma inside. */
  predicate AddressToken(a: string) { a != "" && ',' !in a && !IsSpace(a[0]) && !IsSpace(a[|a| - 1]) }

  lemma {:induction false} CutAtBlankIs(host: string, rest: string)
    requires (forall c :: c in host ==> c != ' ' && c != '\t') && (rest == "" || rest[0] == ' ' || rest[0] == '\t')
    ensures CutAtBlank(host + rest) == host
  {
    if host == "" {
      assert host + rest == rest;
    } else {
      assert host[0] in host && forall c :: c in host[1..] ==> c in host;
      assert (host + rest)[0] == host[0] && (host + rest)[1..] == host[1..] + rest;
      CutAtBlankIs(host[1..], rest);
    }
  }

  /** An address's host: what comes before its first blank, without the scheme. */
  lemma AddressHostIs(host: string, rest: string)
    requires (forall c :: c in host ==> c != ' ' && c != '\t') && (rest == "" || rest[0] == ' ' || rest[0] == '\t')
    requires !("http://" <= host) && !("https://" <= host)
    ensures AddressHost(host + rest) == host
    ensures AddressHost("http://" + host + rest) == host && AddressHost("https://" + host + rest) == host
    ensures AddressHost("https://" + "http://" + host + rest) == host
  {
    hide CutAtBlank;
    var plain, whole := "http://" + host + rest, host + rest;
    CutAtBlankIs(host, rest);
    assert plain == "http://" + whole && "https://" + host + rest == "https://" + whole;
    assert "https://" + "http://" + host + rest == "https://" + plain;
    assert plain[4] == ':' && "https://"[4] == 's';
    NoScheme(host, rest, "http://");
    NoScheme(host, rest, "https://");
  }

  lemma NoScheme(host: string, rest: string, scheme: string)
    requires !(scheme <= host) && (rest == "" || rest[0] == ' ' || rest[0] == '\t')
    requires forall c :: c in scheme ==> c != ' ' && c != '\t'
    ensures !(scheme <= host + rest)
  {
    assert (host + rest)[..|host|] == host;
    assert |scheme| <= |host| ==> (host + rest)[..|scheme|] == host[..|scheme|];
    assert |host| < |scheme| ==> scheme[|host|] in scheme;
  }

  lemma {:induction false} PlainCode(s: string)
    requires PlainText(s)
    ensures CodeLine(s) == Some(s) && !OddBackticks(s)
  {
    if s != "" {
      assert s[0] in s && forall c :: c in s[1..] ==> c in s;
      PlainCode(s[1..]);
      assert s == s[..1] + s[1..];
    }
  }

  lemma {:induction false} PlainBraces(a: string, b: string)
    requires PlainText(a)
    ensures BraceNet(a + b) == BraceNet(a) + BraceNet(b)
  {
    if a == "" {
      assert a + b == b;
    } else {
      assert a[0] in a && forall c :: c in a[1..] ==> c in a;
      assert (a + b)[1..] == a[1..] + b;
      PlainBraces(a[1..], b);
    }
  }

  lemma TokensOf(addr: string)
    ensures forall a :: a in SplitAddressLine(addr) ==> AddressToken(a)
  {
    SplitPieces(addr, ',');
    TokensOfPieces(Split(addr, ','));
  }

  lemma {:induction false} TokensOfPieces(pieces: seq<string>)
    requires forall p :: p in pieces ==> ',' !in p
    ensures forall a :: a in TrimNonEmpty(pieces) ==> AddressToken(a)
  {
    if pieces != [] {
      assert pieces[0] in pieces && forall p :: p in pieces[1..] ==> p in pieces;
      TokensOfPieces(pieces[1..]);
      var x, y := TrimParts(pieces[0], IsSpace);
      TrimEnds(pieces[0], IsSpace);
    }
  }

  /** A blank in front of the first piece changes nothing. */
  lemma SplitAfterBlank(s: string)
    ensures SplitAddressLine(" " + s) == SplitAddressLine(s)
  {
    hide TrimSpace;
    var r := Split(s, ',');
    SplitCons(' ', s, ',');
    assert Split(" " + s, ',') == [" " + r[0]] + r[1..];
    BlankInFront(r[0]);
    assert ([" " + r[0]] + r[1..])[1..] == r[1..];
  }

  lemma BlankInFront(s: string)
    ensures TrimSpace(" " + s) == TrimSpace(s)
  {
    assert " " + s == " " + s + "";
    TrimAround(" ", s, "", IsSpace);
  }

  lemma SplitOneAddress(a: string, rest: string)
    requires AddressToken(a)
    ensures SplitAddressLine(a) == [a]
    ensures SplitAddressLine(a + "," + rest) == [a] + SplitAddressLine(rest)
  {
    SplitLine(a, ',');
    TrimTrimmed(a, IsSpace);
    assert TrimNonEmpty([a]) == [a] by {
      assert [a][1..] == [];
      assert TrimNonEmpty([]) == [];
    }
    SplitConcat(a, ',', rest);
    assert ([a] + Split(rest, ','))[1..] == Split(rest, ',');
  }

  lemma {:induction false} JoinedSplit(kept: seq<string>)
    requires kept != [] && forall a :: a in kept ==> AddressToken(a)
    ensures SplitAddressLine(JoinAddresses(kept)) == kept
  {
    hide AddressToken, SplitAddressLine;
    assert kept[0] in kept;
    if |kept| == 1 {
      SplitOneAddress(kept[0], "");
      assert kept == [kept[0]];
    } else {
      assert forall a :: a in kept[1..] ==> a in kept;
      JoinedSplit(kept[1..]);
      var rest := JoinAddresses(kept[1..]);
      SplitAfterBlank(rest);
      SplitOneAddress(kept[0], " " + rest);
      assert kept[0] + ", " + rest == kept[0] + "," + (" " + rest);
    }
  }

  /** Plain text whose braces are balanced. */
  predicate Balanced(a: string) { PlainText(a) && BraceNet(a) == 0 }

  lemma {:induction false} JoinedBraces(kept: seq<string>)
    requires forall a :: a in kept ==> Balanced(a)
    ensures PlainText(JoinAddresses(kept)) && BraceNet(JoinAddresses(kept)) == 0
  {
    if kept != [] {
      assert kept[0] in kept && forall a :: a in kept[1..] ==> a in kept;
      hide BraceNet, PlainText;
      assert Balanced(kept[0]);
      if |kept| > 1 {
        JoinedBraces(kept[1..]);
        var rest := JoinAddresses(kept[1..]);
        NoBraces();
        PlainBraces(", ", rest);
        PlainBraces(kept[0], ", " + rest);
        assert JoinAddresses(kept) == kept[0] + (", " + rest);
      }
    }
  }

  lemma {:induction false} JoinedPlain(kept: seq<string>)
    requires kept != [] && forall a :: a in kept ==> AddressToken(a) && PlainAddress(a)
    ensures var j := JoinAddresses(kept);
      && PlainText(j) && BraceNet(j) == 0
      && |j| >= |kept[0]| > 0 && j[..|kept[0]|] == kept[0] && !IsSpace(j[|j| - 1])
      && (|kept| > 1 ==> |j| > |kept[0]| && j[|kept[0]|] == ',')
      && (|kept| == 1 ==> j == kept[0])
  {
    forall a | a in kept ensures Balanced(a) {
      assert PlainAddress(a);
    }
    JoinedBraces(kept);
    hide PlainText, BraceNet, PlainAddress;
    assert kept[0] in kept;
    if |kept| > 1 {
      assert forall a :: a in kept[1..] ==> a in kept;
      JoinedPlain(kept[1..]);
    }
  }

  lemma NoBraces()
    ensures BraceNet(", ") == 0 && BraceNet(" {") == 1 && BraceNet("{") == 1
  {
    assert ", "[1..] == " " && " "[1..] == "";
    assert " {"[1..] == "{" && "{"[1..] == "";
  }

  lemma {:induction false} IndentIsBlank(s: string)
    ensures forall c :: c in LeadingWhitespace(s) ==> c == ' ' || c == '\t'
    ensures BraceNet(LeadingWhitespace(s)) == 0
  {
    if s != "" && (s[0] == ' ' || s[0] == '\t') {
      IndentIsBlank(s[1..]);
      assert LeadingWhitespace(s)[1..] == LeadingWhitespace(s[1..]);
    }
  }

  /** The line a block is rewritten to. */
  function Rewritten(first: string, kept: seq<string>): string {
    LeadingWhitespace(first) + JoinAddresses(kept) + " {"
  }

  lemma RewrittenTrims(first: string, kept: seq<string>)
    requires kept != [] && forall a :: a in kept ==> AddressToken(a) && PlainAddress(a)
    ensures var j := JoinAddresses(kept);
      && TrimSpace(Rewritten(first, kept)) == j + " {"
      && TrimSpace(TrimSuffix(j + " {", "{")) == j && HasSuffix(j + " {", "{")
  {
    hide PlainText, BraceNet, Trim, JoinAddresses;
    var j := JoinAddresses(kept);
    assert kept[0] in kept;
    JoinedPlain(kept);
    assert j[0] == kept[0][0];
    IndentIsBlank(first);
    assert Rewritten(first, kept) == LeadingWhitespace(first) + (j + " {") + "";
    TrimOf(LeadingWhitespace(first), j + " {", "", IsSpace);
    assert (j + " {")[|j + " {"| - 1..] == "{";
    assert (j + " {")[..|j + " {"| - 1] == j + " ";
    assert j + " " == "" + j + " ";
    TrimOf("", j, " ", IsSpace);
  }

  lemma RewrittenPlain(first: string, kept: seq<string>)
    requires kept != [] && forall a :: a in kept ==> AddressToken(a) && PlainAddress(a)
    ensures PlainText(Rewritten(first, kept)) && BraceNet(Rewritten(first, kept)) == 1
  {
    var j, indent := JoinAddresses(kept), LeadingWhitespace(first);
    JoinedPlain(kept);
    IndentIsBlank(first);
    NoBraces();
    assert Rewritten(first, kept) == indent + (j + " {");
    PlainBraces(indent, j + " {");
    PlainBraces(j, " {");
  }

  lemma NoHeredoc(line: string)
    requires |line| >= 2 && line[|line| - 2..] == " {"
    ensures HeredocTerminator(line) == None
  {
    assert line[|line| - 1] == '{' && line[|line| - 2] == ' ';
    assert TrimRight(line, IsSpace) == line;
    assert LastWord(line[..|line| - 1]) == "";
    assert LastWord(line) == "{";
  }

  /** The rewritten line parses as a block opening with exactly the kept
      addresses, one brace deep. */
  lemma RewrittenReadsBack(first: string, kept: seq<string>)
    requires kept != [] && forall a :: a in kept ==> AddressToken(a) && PlainAddress(a)
    ensures var r := Rewritten(first, kept);
      && CodeLine(r) == Some(r) && HeredocTerminator(r) == None && BraceNet(r) == 1 && '\n' !in r && !OddBackticks(r)
      && ReadTopLine(r, r) == Opening(SiteBlock(kept, [r])) && TrimSpace(r)[0] != '#'
  {
    hide BraceNet, CodeLine, OddBackticks, HeredocTerminator, TrimSpace, SplitAddressLine;
    var r, j := Rewritten(first, kept), JoinAddresses(kept);
    RewrittenTrims(first, kept);
    RewrittenPlain(first, kept);
    PlainCode(r);
    assert r[|r| - 2..] == " {";
    NoHeredoc(r);
    JoinedPlain(kept);
    JoinedSplit(kept);
    assert kept[0] in kept;
    NotImport(kept, j);
    assert j[0] == kept[0][0] && j[0] in j;
  }

  lemma NotImport(kept: seq<string>, j: string)
    requires kept != [] && PlainAddress(kept[0]) && AddressToken(kept[0])
    requires |j| >= |kept[0]| && j[..|kept[0]|] == kept[0]
    requires |kept| > 1 ==> |j| > |kept[0]| && j[|kept[0]|] == ','
    requires |kept| == 1 ==> j == kept[0]
    ensures !ImportLike(j + " {")
  {
    hide BraceNet;
    var t, a := j + " {", kept[0];
    assert t[|t| - 1] == '{';
    assert |a| > 6 ==> a[..7] == t[..7];
    ImportWord(t);
    if |a| > 6 {
      SamePrefix(a, t);
    } else {
      assert a == t[..|a|];
      assert |kept| > 1 ==> t[|a|] == ',';
      assert |kept| == 1 ==> t[|a|] == ' ';
    }
  }

  lemma ImportWord(t: string)
    requires t != "" && t[|t| - 1] == '{'
    ensures ImportLike(t) <==> "import " <= t
  {
    if ImportLike(t) {
      assert t[5] == 't' && t[..7] == t[..6] + [t[6]];
    }
  }

  lemma SamePrefix(a: string, t: string)
    requires |a| > 6 && |t| > 6 && a[..7] == t[..7]
    ensures "import " <= a <==> "import " <= t
  {
  }
}
