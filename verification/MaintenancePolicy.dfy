/** Maintenance keeps the security envelope of a site
    (internal/caddy/routes.go, caddy.go). */
module MaintenancePolicy {
  import opened Wrappers
  import opened Lines
  import opened Text
  import opened TextLines
  import opened RouteLex
  import opened Routes
  import opened RouteAddress
  import opened RouteSpaces
  import opened RouteItems
  import opened Webhook
  import opened SitePolicies

  // ---- the tls directive ----

  /** A line of code between white space. */
  lemma TrimmedCode(a: string, t: string, c: string)
    requires Spaces(a) && Spaces(c) && '\n' !in a && Coded(a + t + c) && TrimSpace(Code(a + t + c)) != ""
    ensures Coded(t) && TrimSpace(Code(t)) == TrimSpace(Code(a + t + c)) && Net(t) == Net(a + t + c)
    ensures HeredocTerminator(Code(t)) == HeredocTerminator(Code(a + t + c))
  {
    hide CodeFrom, HeredocTerminator, BraceNet, Trim;
    SpacesArePlain(a);
    assert a + t + c == a + (t + c);
    PlainThen(a, t + c);
    CodeBeforeSpaces(t, c, None);
    var code, all := Code(t), Code(a + t + c);
    var tail := if all == a + (code + c) then c else "";
    assert all == a + code + tail;
    TrimAround(a, code, tail, IsSpace);
    SpacesAround(a, code, tail);
  }

  lemma TrimmedUnit(a: string, t: string, c: string)
    requires Spaces(a) && Spaces(c) && '\n' !in a + t + c && Unit(a + t + c)
    ensures Unit(t)
  {
    hide OddBackticks;
    OneLineUnit(a + t + c);
    SpacesParity(a);
    SpacesParity(c);
    BackticksConcat(a + t, c);
    BackticksConcat(a, t);
    OneLineUnit(t);
  }

  /** A single-line tls directive, trimmed as the maintenance block carries it. */
  lemma TrimmedTls(raw: string)
    requires '\n' !in raw && Unit(raw) && Coded(raw) && HeredocTerminator(Code(raw)).None? &&
      TlsLine(TrimSpace(Code(raw)))
    ensures var t := TrimSpace(raw);
      && t != "" && Reads(t) && TlsLine(TrimSpace(Code(t))) && Net(t) == Net(raw) && TrimSpace(t) == t
  {
    hide CodeFrom, HeredocTerminator, BraceNet, TlsLine, OddBackticks, Trim, LinesOf;
    var t := TrimSpace(raw);
    var a, c := TrimParts(raw, IsSpace);
    assert raw == a + t + c && forall x :: x in a ==> x in raw;
    TlsSpeaks(Code(raw));
    TrimmedCode(a, t, c);
    TrimmedUnit(a, t, c);
    assert t != "" by { EmptyIsNoTls(); }
    ReadTwice(raw);
  }

  lemma TlsSpeaks(code: string)
    requires TlsLine(TrimSpace(code))
    ensures TrimSpace(code) != ""
  {
  }

  lemma EmptyIsNoTls()
    ensures Code("") == "" && TrimSpace("") == "" && !TlsLine("")
  {
  }

  // ---- the block's own lines ----

  lemma TabbedHead(l: string)
    requires |l| >= 2 && l[0] == '\t' && !IsSpace(l[1])
    ensures TrimSpace(l) != "" && TrimSpace(l)[0] == l[1]
  {
    TrimKeepsHead(l[1..], IsSpace);
    assert TrimLeft(l, IsSpace) == l[1..];
  }

  predicate NoDirective(t: string) { !TlsLine(t) && !AccessLine(t) }

  lemma OtherHead(t: string)
    requires t != "" && t[0] != 't' && t[0] != 'b' && t[0] != 'f'
    ensures NoDirective(t)
  {
  }

  lemma {:induction false} LastWordChars(t: string)
    ensures forall c :: c in LastWord(t) ==> c in t
  {
    if t != "" {
      LastWordChars(t[..|t| - 1]);
    }
  }

  lemma NoAngle(l: string)
    requires '<' !in l
    ensures HeredocTerminator(l).None?
  {
    var t := TrimRight(l, IsSpace);
    LastWordChars(t);
    assert LastWord(t) != "" ==> LastWord(t)[0] in LastWord(t);
  }

  /** A line that is all code, carries no policy, and changes the depth by net. */
  predicate Neutral(l: string, net: int) {
    Unit(l) && CodeLine(l) == Some(l) && BraceNet(l) == net && HeredocTerminator(l).None? && NoDirective(TrimSpace(l))
  }

  lemma HeaderIsNeutral(a: string, s: string)
    requires HeaderName(a) && HeaderValue(s)
    ensures Neutral(a + "\"" + s + "\"", 0)
  {
    hide HeredocTerminator, NoDirective, TrimSpace, LinesOf, CodeFrom, BraceNet, OddBackticks, Unit;
    var l := a + "\"" + s + "\"";
    assert '\n' !in a;
    assert forall c :: c in l ==> c in a || c in s || c == '"';
    NoBraceChars(a);
    QuotedReads(a, s, '"');
    TabbedHead(l);
    OtherHead(TrimSpace(l));
    NoAngle(l);
    NoBackticks(l);
    OneLineUnit(l);
  }

  lemma HeadersAreNeutral()
    ensures Neutral(TYPE_HEADER + "\"" + TYPE_VALUE + "\"", 0)
    ensures Neutral(RETRY_HEADER + "\"" + RETRY_VALUE + "\"", 0)
  {
    hide Neutral;
    HeaderNames();
    HeaderValues();
    HeaderIsNeutral(TYPE_HEADER, TYPE_VALUE);
    HeaderIsNeutral(RETRY_HEADER, RETRY_VALUE);
  }

  /** Text that means nothing to the lexer. */
  predicate Inert(s: string) { PlainText(s) && '{' !in s && '}' !in s && '<' !in s }

  /** A header directive up to its value. */
  predicate HeaderName(a: string) { Inert(a) && |a| >= 2 && a[0] == '\t' && a[1] == 'h' }

  predicate HeaderValue(s: string) { '"' !in s && '\n' !in s && '`' !in s && '<' !in s }

  lemma InertConcat(a: string, b: string)
    requires Inert(a) && Inert(b)
    ensures Inert(a + b)
  {
  }

  lemma HeaderWord()
    ensures Inert("\theader ")
  {
  }

  lemma TypeWord()
    ensures Inert("Content-Type ")
  {
  }

  lemma RetryWord()
    ensures Inert("Retry-After ")
  {
  }

  lemma HeaderNames()
    ensures HeaderName(TYPE_HEADER) && HeaderName(RETRY_HEADER)
  {
    hide Inert;
    HeaderWord();
    TypeWord();
    RetryWord();
    InertConcat("\theader ", "Content-Type ");
    InertConcat("\theader ", "Retry-After ");
  }

  lemma HeaderValues()
    ensures HeaderValue(TYPE_VALUE) && HeaderValue(RETRY_VALUE)
  {
    TypeValue();
    hide TYPE_VALUE;
  }

  lemma TypeValue()
    ensures HeaderValue(TYPE_VALUE)
  {
    assert '"' !in TYPE_VALUE && '\n' !in TYPE_VALUE;
    assert '`' !in TYPE_VALUE && '<' !in TYPE_VALUE;
  }

  lemma PlainLineIsNeutral(l: string, net: int)
    requires PlainText(l) && BraceNet(l) == net && '<' !in l
    requires |l| >= 2 && l[0] == '\t' && !IsSpace(l[1]) && l[1] != 't' && l[1] != 'b' && l[1] != 'f'
    ensures Neutral(l, net)
  {
    hide BraceNet, HeredocTerminator, NoDirective, TrimSpace, LinesOf, CodeFrom, OddBackticks;
    TabbedHead(l);
    OtherHead(TrimSpace(l));
    NoAngle(l);
    PlainCode(l);
    OneLineUnit(l);
  }

  lemma RespondIsNeutral()
    ensures Neutral("\trespond 503 {", 1)
  {
    hide Neutral, BraceNet;
    var a := "\trespond 503 ";
    NoBraceChars(a);
    PlainBraces(a, "{");
    NoBraces();
    assert a + "{" == "\trespond 503 {";
    PlainLineIsNeutral("\trespond 503 {", 1);
  }

  lemma BraceIsNeutral()
    ensures Neutral("\t}", -1)
  {
    hide Neutral;
    assert "\t}"[1..] == "}" && "}"[1..] == "";
    assert BraceNet("\t}") == -1;
    PlainLineIsNeutral("\t}", -1);
  }

  lemma BraceText()
    ensures BraceNet("}") == -1 && PlainText("}")
  {
    assert "}"[1..] == "";
  }

  lemma LastBrace()
    ensures Neutral("}", -1)
  {
    BraceText();
    hide BraceNet, HeredocTerminator, NoDirective, Trim, LinesOf, CodeFrom, OddBackticks;
    TrimTrimmed("}", IsSpace);
    PlainCode("}");
    NoAngle("}");
    OneLineUnit("}");
    OtherHead("}");
  }

  // ---- steps of the extraction ----

  lemma NeutralStep(l: string, net: int, rest: seq<string>, depth: int, pol: SitePolicy)
    requires Coded(l) && Code(l) == l && BraceNet(l) == net && HeredocTerminator(l).None? &&
      (depth != 1 || NoDirective(TrimSpace(l)))
    ensures PolicyFrom([l] + rest, depth, pol) ==
      if depth + net <= 0 then Ok(pol) else PolicyFrom(rest, depth + net, pol)
  {
    hide BraceNet, HeredocTerminator, CodeFrom, TlsLine, AccessLine, TrimSpace, Unlines, SpanEnd;
    assert ([l] + rest)[1..] == rest;
  }

  lemma NeutralReads(l: string, net: int, rest: seq<string>, depth: int, pol: SitePolicy)
    requires Neutral(l, net) && depth + net > 0
    ensures PolicyFrom([l] + rest, depth, pol) == PolicyFrom(rest, depth + net, pol)
  {
    hide PolicyFrom, BraceNet, HeredocTerminator, CodeFrom, NoDirective, Unit, TrimSpace;
    NeutralStep(l, net, rest, depth, pol);
  }

  lemma ClosingReads(page: seq<string>, pol: SitePolicy)
    requires GoodPage(page)
    ensures PolicyFrom([BodyLine(page), "\t}", "}"], 2, pol) == Ok(pol)
  {
    hide PolicyFrom, BraceNet, HeredocTerminator, CodeFrom, NoDirective, BodyLine, GoodPage, Unit, TrimSpace, Neutral;
    LastBrace();
    BraceIsNeutral();
    BodyCode(page);
    NeutralStep(BodyLine(page), 0, ["\t}", "}"], 2, pol);
    NeutralReads("\t}", -1, ["}"], 2, pol);
    LastReads(pol);
    assert [BodyLine(page), "\t}", "}"] == [BodyLine(page)] + ["\t}", "}"] && ["\t}", "}"] == ["\t}"] + ["}"];
  }

  lemma BodyCode(page: seq<string>)
    requires GoodPage(page)
    ensures var l := BodyLine(page); Coded(l) && Code(l) == l && BraceNet(l) == 0 && HeredocTerminator(l).None?
  {
    hide HeredocTerminator, CodeFrom, BraceNet, Unlines;
    BodyReads(page);
  }

  lemma LastReads(pol: SitePolicy)
    ensures PolicyFrom(["}"], 1, pol) == Ok(pol)
  {
    hide PolicyFrom, BraceNet, HeredocTerminator, CodeFrom, NoDirective, Unit, TrimSpace;
    LastBrace();
    NeutralStep("}", -1, [], 1, pol);
    assert ["}"] + [] == ["}"];
  }

  /** After the policy lines the rest of the block adds nothing and closes it. */
  lemma TailReads(page: seq<string>, pol: SitePolicy)
    requires GoodPage(page)
    ensures PolicyFrom(TailLines(page), 1, pol) == Ok(pol)
  {
    hide PolicyFrom, Neutral, BodyLine, GoodPage;
    HeadersAreNeutral();
    RespondIsNeutral();
    ClosingReads(page, pol);
    var ls := TailLines(page);
    assert ls == [ls[0]] + ls[1..] && ls[1..] == [ls[1]] + ls[2..] && ls[2..] == [ls[2]] + ls[3..];
    assert ls[3..] == [BodyLine(page), "\t}", "}"];
    NeutralReads(ls[0], 0, ls[1..], 1, pol);
    NeutralReads(ls[1], 0, ls[2..], 1, pol);
    NeutralReads(ls[2], 1, ls[3..], 1, pol);
  }

  lemma SpanReads(span: seq<string>, rest: seq<string>, pol: SitePolicy)
    requires SpanLines(span)
    ensures PolicyFrom(span + rest, 1, pol) == PolicyFrom(rest, 1, pol.(access := pol.access + [Unlines(span)]))
  {
    hide BraceNet, HeredocTerminator, CodeFrom, TlsLine, Unlines, Unit, TrimSpace;
    var more := span[1..];
    SpanEndWithin(more, Net(span[0]), |more|, rest);
    assert more[..|more|] == more;
    assert (span + rest)[1..] == more + rest && (span + rest)[0] == span[0];
    assert (span + rest)[1 + |more|..] == rest && (span + rest)[..1 + |more|] == span;
  }

  function Flat(spans: seq<seq<string>>): seq<string> {
    if spans == [] then [] else spans[0] + Flat(spans[1..])
  }

  function Joined(spans: seq<seq<string>>): seq<string> {
    if spans == [] then [] else [Unlines(spans[0])] + Joined(spans[1..])
  }

  ghost predicate AllSpans(spans: seq<seq<string>>) { forall s :: s in spans ==> SpanLines(s) }

  lemma FirstSpan(spans: seq<seq<string>>, rest: seq<string>, access: seq<string>)
    requires spans != []
    ensures Flat(spans) + rest == spans[0] + (Flat(spans[1..]) + rest)
    ensures access + [Unlines(spans[0])] + Joined(spans[1..]) == access + Joined(spans)
  {
    hide Unlines;
    assert access + [Unlines(spans[0])] + Joined(spans[1..]) == access + ([Unlines(spans[0])] + Joined(spans[1..]));
  }

  lemma {:induction false} SpansRead(spans: seq<seq<string>>, rest: seq<string>, pol: SitePolicy)
    requires AllSpans(spans)
    ensures PolicyFrom(Flat(spans) + rest, 1, pol) == PolicyFrom(rest, 1, pol.(access := pol.access + Joined(spans)))
  {
    hide PolicyFrom, SpanLines, Unlines;
    if spans == [] {
      assert Flat(spans) + rest == rest && pol.access + [] == pol.access;
    } else {
      hide Flat, Joined;
      assert spans[0] in spans && forall s :: s in spans[1..] ==> s in spans;
      FirstSpan(spans, rest, pol.access);
      SpanReads(spans[0], Flat(spans[1..]) + rest, pol);
      SpansRead(spans[1..], rest, pol.(access := pol.access + [Unlines(spans[0])]));
    }
  }

  lemma {:induction false} SpansOf(access: seq<string>) returns (spans: seq<seq<string>>)
    requires forall a :: a in access ==> GoodSpan(a)
    ensures AllSpans(spans) && Joined(spans) == access
  {
    hide SpanLines, Unlines;
    if access == [] {
      spans := [];
    } else {
      assert access[0] in access && forall a :: a in access[1..] ==> a in access;
      var rest := SpansOf(access[1..]);
      var span :| SpanLines(span) && access[0] == Unlines(span);
      spans := [span] + rest;
      assert spans[1..] == rest;
      assert access == [access[0]] + access[1..];
    }
  }

  lemma {:induction false} SpansText(spans: seq<seq<string>>, tail: seq<string>)
    requires AllSpans(spans) && tail != []
    ensures AccessSpans(Joined(spans)) + Unlines(tail) == Unlines(Flat(spans) + tail)
  {
    hide SpanLines, Unlines;
    if spans == [] {
      assert Flat(spans) + tail == tail;
      assert "" + Unlines(tail) == Unlines(tail);
    } else {
      assert spans[0] in spans && forall s :: s in spans[1..] ==> s in spans;
      SpanNotEmpty(spans[0]);
      SpansText(spans[1..], tail);
      UnlinesBoth(spans[0], Flat(spans[1..]) + tail);
      assert Flat(spans) + tail == spans[0] + (Flat(spans[1..]) + tail);
      assert Joined(spans)[1..] == Joined(spans[1..]);
    }
  }

  lemma SpanNotEmpty(span: seq<string>)
    requires SpanLines(span)
    ensures span != [] && AllUnits(span)
  {
  }

  lemma {:induction false} FlatUnits(spans: seq<seq<string>>)
    requires AllSpans(spans)
    ensures AllUnits(Flat(spans))
  {
    hide SpanLines, Unit;
    if spans != [] {
      assert spans[0] in spans && forall s :: s in spans[1..] ==> s in spans;
      SpanNotEmpty(spans[0]);
      FlatUnits(spans[1..]);
    }
  }

  lemma {:induction false} UnitsRead(ls: seq<string>)
    requires ls != [] && AllUnits(ls)
    ensures LogicalLines(LinesOf(Unlines(ls))) == ls
  {
    hide LinesOf, Unit, Unlines, LogicalFrom;
    var l, rest := ls[0], ls[1..];
    assert l in ls && forall x :: x in rest ==> x in ls;
    UnlinesCons(l, rest);
    assert ls == [l] + rest;
    if rest == [] {
      UnitMerges(l, []);
      assert LinesOf(l) + [] == LinesOf(l);
      assert LogicalLines([]) == [] by { NothingMerges(); }
    } else {
      UnitsRead(rest);

      LinesOfConcat(l, Unlines(rest));
      UnitMerges(l, LinesOf(Unlines(rest)));
    }
  }

  lemma LinesOfConcat(a: string, b: string)
    ensures LinesOf(a + "\n" + b) == LinesOf(a) + LinesOf(b)
  {
    SplitConcat(a, '\n', b);
  }

  // ---- the maintenance block keeps the policy ----

  /** A host as parseDomains lets it through, without quotes of its own. */
  predicate PlainHost(h: string) { Balanced(h) && h != "" }

  /** A policy whose tls directive, if any, is one line without a block. */
  predicate SingleLineTls(pol: SitePolicy) { pol.tls != "" ==> '\n' !in pol.tls && Net(pol.tls) == 0 }

  lemma HttpIsPlain()
    ensures Balanced("http://")
  {
    NoBraceChars("http://");
  }

  lemma {:induction false} SchemeHostsPlain(hosts: seq<string>, tls: string, routable: string -> bool)
    requires forall h :: h in hosts ==> PlainHost(h)
    ensures |SchemeHosts(hosts, tls, routable)| == |hosts|
    ensures forall h :: h in SchemeHosts(hosts, tls, routable) ==> PlainHost(h)
  {
    if hosts != [] {
      hide Balanced;
      assert hosts[0] in hosts && forall h :: h in hosts[1..] ==> h in hosts;
      SchemeHostsPlain(hosts[1..], tls, routable);
      HttpHost(hosts[0]);
    }
  }

  lemma HttpHost(h: string)
    requires PlainHost(h)
    ensures PlainHost("http://" + h)
  {
    hide BraceNet;
    HttpIsPlain();
    PlainBraces("http://", h);
  }

  /** The address line opens the block, one brace deep. */
  lemma AddressOpens(hosts: seq<string>, rest: seq<string>)
    requires hosts != [] && forall h :: h in hosts ==> PlainHost(h)
    ensures var l := JoinAddresses(hosts) + " {"; OpeningLine([l] + rest) == Some(0) && BraceNet(l) == 1 && Unit(l)
  {
    hide BraceNet, OddBackticks, LinesOf, Trim, CodeLine;
    var j := JoinAddresses(hosts);
    var l := j + " {";
    forall h | h in hosts ensures Balanced(h) { assert PlainHost(h); }
    JoinedBraces(hosts);
    NoBraces();
    PlainBraces(j, " {");
    PlainCode(l);
    OneLineUnit(l);
    var a, c := TrimParts(l, IsSpace);
    var t := TrimSpace(l);
    EndsWithBrace(a, t, c, j);
    assert t[0] in l by { assert t[0] == l[|a|]; }
    assert ([l] + rest)[0] == l;
  }

  lemma EndsWithBrace(a: string, t: string, c: string, j: string)
    requires j + " {" == a + t + c && Spaces(a) && Spaces(c)
    ensures t != "" && HasSuffix(t, "{")
  {
    var l := a + t + c;
    assert l[|l| - 1] == '{';
    if c != "" {
      LastIn(a + t, c);
    } else if t == "" {
      assert l == "" + a && a != "";
      LastIn("", a);
    } else {
      assert t[|t| - 1] == '{' && t[|t| - 1..] == "{";
    }
  }

  lemma LastIn(x: string, c: string)
    requires c != ""
    ensures (x + c)[|x + c| - 1] in c
  {
  }

  lemma TailIsUnits(page: seq<string>)
    requires GoodPage(page)
    ensures AllUnits(TailLines(page))
  {
    hide Unit, BodyLine, CodeFrom, BraceNet, HeredocTerminator, NoDirective, TrimSpace;
    HeadersAreNeutral();
    RespondIsNeutral();
    BraceIsNeutral();
    LastBrace();
    BodyIsUnit(page);
  }

  lemma TlsReads(raw: string, rest: seq<string>)
    requires Reads(raw) && TlsLine(TrimSpace(Code(raw))) && Net(raw) == 0
    ensures PolicyFrom([raw] + rest, 1, NO_POLICY) == PolicyFrom(rest, 1, NO_POLICY.(tls := raw))
  {
    hide BraceNet, HeredocTerminator, CodeFrom, TlsLine, Unit, TrimSpace;
    assert ([raw] + rest)[1..] == rest;
  }

  /** What follows the address line: the directive, the spans, and the tail. */
  function PolicyLines(tls: string, spans: seq<seq<string>>, page: seq<string>): seq<string> {
    (if tls == "" then [] else [tls]) + (Flat(spans) + TailLines(page))
  }

  /** The lines of the maintenance block. */
  function BlockLines(address: string, tls: string, spans: seq<seq<string>>, page: seq<string>): seq<string> {
    [address] + PolicyLines(tls, spans, page)
  }

  lemma BlockText(hosts: seq<string>, pol: SitePolicy, routable: string -> bool, page: seq<string>,
                  spans: seq<seq<string>>)
    requires AllSpans(spans) && Joined(spans) == pol.access
    ensures var tls := TrimSpace(pol.tls); var address := JoinAddresses(SchemeHosts(hosts, tls, routable)) + " {";
      MaintenanceBlock(hosts, pol, routable, page) == Unlines(BlockLines(address, tls, spans, page))
  {
    hide Unlines, SchemeHosts, JoinAddresses, TrimSpace, TailLines, AccessSpans, Flat, AllSpans;
    var tls := TrimSpace(pol.tls);
    var address := JoinAddresses(SchemeHosts(hosts, tls, routable)) + " {";
    TailNotEmpty(page);
    SpansText(spans, TailLines(page));
    LinesText(address, tls, Flat(spans) + TailLines(page));
  }

  lemma LinesText(address: string, tls: string, rest: seq<string>)
    requires rest != []
    ensures Unlines([address] + ((if tls == "" then [] else [tls]) + rest)) ==
      address + "\n" + (if tls == "" then "" else tls + "\n") + Unlines(rest)
  {
    hide Unlines;
    if tls == "" {
      UnlinesCons(address, rest);
      assert [] + rest == rest;
    } else {
      UnlinesCons(tls, rest);
      UnlinesCons(address, [tls] + rest);
    }
  }

  lemma TailNotEmpty(page: seq<string>)
    ensures TailLines(page) != []
  {
  }

  predicate TlsReadsBack(tls: string) { tls != "" ==> Reads(tls) && TlsLine(TrimSpace(Code(tls))) && Net(tls) == 0 }

  lemma PolicyLinesRead(tls: string, spans: seq<seq<string>>, page: seq<string>)
    requires TlsReadsBack(tls) && AllSpans(spans) && GoodPage(page)
    ensures PolicyFrom(PolicyLines(tls, spans, page), 1, NO_POLICY) == Ok(SitePolicy(tls, Joined(spans)))
    ensures AllUnits(PolicyLines(tls, spans, page)) && PolicyLines(tls, spans, page) != []
  {
    hide PolicyFrom, BraceNet, HeredocTerminator, CodeFrom, TlsLine, Unit, TrimSpace, TailLines, GoodPage, SpanLines;
    var rest := Flat(spans) + TailLines(page);
    TailIsUnits(page);
    TailNotEmpty(page);
    FlatUnits(spans);
    var pol := NO_POLICY.(tls := tls);
    if tls == "" {
      assert [] + rest == rest;
    } else {
      TlsReads(tls, rest);
    }
    SpansRead(spans, TailLines(page), pol);
    assert [] + Joined(spans) == Joined(spans);
    TailReads(page, pol.(access := Joined(spans)));
  }

  lemma BlockReads(address: string, tls: string, spans: seq<seq<string>>, page: seq<string>)
    requires OpeningLine(BlockLines(address, tls, spans, page)) == Some(0) && BraceNet(address) == 1 && Unit(address)
    requires TlsReadsBack(tls) && AllSpans(spans) && GoodPage(page)
    ensures ExtractPolicy(Unlines(BlockLines(address, tls, spans, page))) == Ok(SitePolicy(tls, Joined(spans)))
  {
    hide PolicyFrom, BraceNet, HeredocTerminator, CodeFrom, TlsLine, Unit, TrimSpace, Unlines, LogicalFrom, LinesOf,
      OpeningLine, TailLines, GoodPage, SpanLines, PolicyLines, TlsReadsBack;
    var ls := BlockLines(address, tls, spans, page);
    PolicyLinesRead(tls, spans, page);
    UnitsRead(ls);
    assert ls[0] == address && ls[1..] == PolicyLines(tls, spans, page);
  }

  /** Maintenance keeps HTTPS and the access gate: extracting the policy of the
      block rendered from an extracted policy yields the same tls directive, but
      for white space around it, and the same access spans. */
  lemma MaintenanceKeepsPolicy(block: string, hosts: seq<string>, routable: string -> bool, page: seq<string>)
    requires ExtractPolicy(block).Ok? && SingleLineTls(ExtractPolicy(block).value)
    requires hosts != [] && (forall h :: h in hosts ==> PlainHost(h)) && GoodPage(page)
    ensures var pol := ExtractPolicy(block).value;
      ExtractPolicy(MaintenanceBlock(hosts, pol, routable, page)) == Ok(SitePolicy(TrimSpace(pol.tls), pol.access))
  {
    hide ExtractPolicy, MaintenanceBlock, BlockLines, TlsLine, Unit, HeredocTerminator, CodeFrom, GoodPage, PlainHost,
      Trim;
    var pol := ExtractPolicy(block).value;
    ExtractedIsGood(block);
    var spans := SpansOf(pol.access);
    var tls := TrimSpace(pol.tls);
    BlockText(hosts, pol, routable, page, spans);
    SchemeHostsPlain(hosts, tls, routable);
    var address := JoinAddresses(SchemeHosts(hosts, tls, routable)) + " {";
    AddressOpens(SchemeHosts(hosts, tls, routable), (if tls == "" then [] else [tls]) +
      (Flat(spans) + TailLines(page)));
    BlockStarts(address, tls, spans, page);
    if pol.tls != "" {
      TrimmedTls(pol.tls);
    } else {
      EmptyIsNoTls();
    }
    BlockReads(address, tls, spans, page);
  }

  lemma BlockStarts(address: string, tls: string, spans: seq<seq<string>>, page: seq<string>)
    ensures BlockLines(address, tls, spans, page) ==
      [address] + ((if tls == "" then [] else [tls]) + (Flat(spans) + TailLines(page)))
  {
  }
}
