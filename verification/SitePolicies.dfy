/** A site block's edge policy and the maintenance block that keeps it
    (internal/caddy/routes.go, caddy.go). */
module SitePolicies {
  import opened Wrappers
  import opened Lines
  import opened Text
  import opened TextLines
  import opened Regions
  import opened RouteLex
  import opened Routes
  import opened RouteAddress
  import opened RouteSpaces
  import opened RoutePieces
  import opened RouteItems
  import opened Webhook

  datatype SitePolicy = SitePolicy(tls: string, access: seq<string>)

  datatype PolicyError = NotASite | OpenQuote | DuplicateTls | UnbalancedSpan | NoClosingBrace

  // ---- extracting it ----

  predicate Says(trimmed: string, directive: string) { trimmed == directive || directive + " " <= trimmed }

  predicate TlsLine(trimmed: string) { Says(trimmed, "tls") }

  predicate AccessLine(trimmed: string) {
    !TlsLine(trimmed) && (Says(trimmed, "basic_auth") || Says(trimmed, "forward_auth"))
  }

  /** How many of the lines close the net braces that are open; an unreadable line
      or the end of the block is an error. */
  function SpanEnd(ls: seq<string>, net: int): (r: Result<nat, PolicyError>)
    ensures r.Ok? ==> r.value <= |ls|
  {
    if net <= 0 then Ok(0)
    else if ls == [] then Err(UnbalancedSpan)
    else if !Coded(ls[0]) then Err(OpenQuote)
    else match SpanEnd(ls[1..], net + Net(ls[0]))
      case Ok(n) => Ok(n + 1)
      case Err(e) => Err(e)
  }

  function PolicyFrom(ls: seq<string>, depth: int, pol: SitePolicy): Result<SitePolicy, PolicyError>
    decreases |ls|
  {
    if ls == [] then Err(NoClosingBrace)
    else
      var raw := ls[0];
      if !Coded(raw) then Err(OpenQuote)
      else if HeredocTerminator(Code(raw)).Some?
        then PolicyFrom(AfterTerminator(ls[1..], HeredocTerminator(Code(raw)).value), depth, pol)
      else
        var trimmed, net := TrimSpace(Code(raw)), Net(raw);
        if depth == 1 && AccessLine(trimmed) then
          match SpanEnd(ls[1..], net)
          case Err(e) => Err(e)
          case Ok(n) => PolicyFrom(ls[1 + n..], depth, pol.(access := pol.access + [Unlines(ls[..1 + n])]))
        else if depth == 1 && TlsLine(trimmed) && pol.tls != "" then Err(DuplicateTls)
        else
          var now := if depth == 1 && TlsLine(trimmed) then pol.(tls := raw) else pol;
          if depth + net <= 0 then Ok(now) else PolicyFrom(ls[1..], depth + net, now)
  }

  const NO_POLICY := SitePolicy("", [])

  function ExtractPolicy(block: string): Result<SitePolicy, PolicyError> {
    var ls := LogicalLines(LinesOf(block));
    match OpeningLine(ls)
    case None => Err(NotASite)
    case Some(i) => if i < |ls| then PolicyFrom(ls[i + 1..], BraceNet(ls[i]), NO_POLICY) else Err(NotASite)
  }

  // ---- the maintenance block ----

  /** The lines of the page: text that a literal can hold. */
  predicate Quotable(l: string) { '`' !in l && '\n' !in l }


  /** The page as the block's body argument, and the lines around it. */
  function BodyLine(page: seq<string>): string { "\t\tbody `" + Unlines(page) + "`" }

  const TYPE_HEADER := "\theader " + "Content-Type "
  const TYPE_VALUE := "text/html; charset=utf-8"
  const RETRY_HEADER := "\theader " + "Retry-After "
  const RETRY_VALUE := "3600"

  /** A page that the body argument can hold, and whose last word is not taken
      for a heredoc. */
  predicate GoodPage(page: seq<string>) {
    page != [] && (forall l :: l in page ==> Quotable(l)) && HeredocTerminator(BodyLine(page)).None?
  }

  function TailLines(page: seq<string>): seq<string> {
    [TYPE_HEADER + "\"" + TYPE_VALUE + "\"",
     RETRY_HEADER + "\"" + RETRY_VALUE + "\"",
     "\trespond 503 {",
     BodyLine(page),
     "\t}",
     "}"]
  }

  function SchemeHosts(hosts: seq<string>, tls: string, routable: string -> bool): seq<string> {
    if hosts == [] then []
    else
      var host := if tls == "" && !routable(hosts[0]) then "http://" + hosts[0] else hosts[0];
      [host] + SchemeHosts(hosts[1..], tls, routable)
  }

  function AccessSpans(access: seq<string>): string {
    if access == [] then "" else access[0] + "\n" + AccessSpans(access[1..])
  }

  function MaintenanceBlock(hosts: seq<string>, pol: SitePolicy, routable: string -> bool, page: seq<string>): string {
    var tls := TrimSpace(pol.tls);
    JoinAddresses(SchemeHosts(hosts, tls, routable)) + " {\n" + (if tls == "" then "" else tls + "\n") +
      AccessSpans(pol.access) + Unlines(TailLines(page))
  }

  // ---- what an extracted policy looks like ----

  /** A line that stands alone as a logical line, and that the parser reads. */
  predicate Reads(l: string) { Unit(l) && Coded(l) && HeredocTerminator(Code(l)).None? }

  predicate AllUnits(ls: seq<string>) { forall l :: l in ls ==> Unit(l) }

  /** A span of whole lines: an access directive and what closes its braces. */
  predicate SpanLines(span: seq<string>) {
    && span != [] && AllUnits(span) && Reads(span[0]) && AccessLine(TrimSpace(Code(span[0])))
    && SpanEnd(span[1..], Net(span[0])) == Ok(|span| - 1)
  }

  ghost predicate GoodSpan(a: string) { exists span :: SpanLines(span) && a == Unlines(span) }

  ghost predicate GoodPolicy(pol: SitePolicy) {
    && (pol.tls != "" ==>
          && Coded(pol.tls) && HeredocTerminator(Code(pol.tls)).None? && TlsLine(TrimSpace(Code(pol.tls)))
          && (Net(pol.tls) == 0 ==> Unit(pol.tls)))
    && forall a :: a in pol.access ==> GoodSpan(a)
  }

  /** Only the last logical line can be a literal that is never closed. */
  lemma {:induction false} LogicalUnits(ls: seq<string>, open: bool, buf: seq<string>)
    requires open <==> buf != []
    requires forall l :: l in ls || l in buf ==> '\n' !in l
    requires open ==> OddBackticks(buf[0]) && forall i :: 0 < i < |buf| ==> !OddBackticks(buf[i])
    ensures var out := LogicalFrom(ls, open, buf); out != [] ==> AllUnits(Front(out))
    decreases |ls|
  {
    hide OddBackticks, Unlines, LinesOf;
    if ls != [] {
      var l, rest := ls[0], ls[1..];
      assert l in ls && forall x :: x in rest ==> x in ls;
      if open && !OddBackticks(l) {
        LogicalUnits(rest, true, buf + [l]);
      } else if !open && OddBackticks(l) {
        LogicalUnits(rest, true, [l]);
      } else {
        var group := if open then buf + [l] else [l];
        LogicalUnits(rest, false, []);
        GroupIsUnit(group);
        var out := LogicalFrom(rest, false, []);
        assert LogicalFrom(ls, open, buf) == [Unlines(group)] + out by {
          UnlinesCons(l, []);
          assert [l] + [] == [l];
        }
        if out != [] {
          assert Front([Unlines(group)] + out) == [Unlines(group)] + Front(out);
        }
      }
    }
  }

  lemma GroupIsUnit(group: seq<string>)
    requires AreLines(group)
    requires if |group| == 1 then !OddBackticks(group[0])
             else OddBackticks(group[0]) && OddBackticks(Last(group)) && forall i :: 0 < i < |group| - 1 ==>
               !OddBackticks(group[i])
    ensures Unit(Unlines(group))
  {
    hide OddBackticks;
    LinesOfUnlines(group);
    if |group| == 1 {
      UnlinesCons(group[0], []);
      assert group == [group[0]] + [];
    }
  }

  lemma {:induction false} SpanEndWithin(ls: seq<string>, net: int, n: nat, rest: seq<string>)
    requires SpanEnd(ls, net) == Ok(n)
    ensures n <= |ls| && SpanEnd(ls[..n] + rest, net) == Ok(n)
  {
    hide CodeLine, BraceNet;
    if net > 0 {
      SpanEndWithin(ls[1..], net + Net(ls[0]), n - 1, rest);
      assert (ls[..n] + rest)[1..] == ls[1..][..n - 1] + rest;
    }
  }

  lemma SpanOf(ls: seq<string>, n: nat)
    requires 1 + n < |ls| && AllUnits(Front(ls)) && Reads(ls[0]) && AccessLine(TrimSpace(Code(ls[0])))
    requires SpanEnd(ls[1..], Net(ls[0])) == Ok(n)
    ensures GoodSpan(Unlines(ls[..1 + n]))
  {
    hide CodeLine, BraceNet, TrimSpace, AccessLine, Unit, HeredocTerminator, Unlines;
    var span := ls[..1 + n];
    SpanEndWithin(ls[1..], Net(ls[0]), n, []);
    assert span[1..] == ls[1..][..n] + [];
    assert forall l :: l in span ==> l in Front(ls);
    assert SpanLines(span);
  }

  /** What the extracted policy is made of. */
  lemma {:induction false} PolicyIsGood(ls: seq<string>, depth: int, pol: SitePolicy)
    requires GoodPolicy(pol) && (ls != [] ==> AllUnits(Front(ls))) && depth > 0
    requires PolicyFrom(ls, depth, pol).Ok?
    ensures GoodPolicy(PolicyFrom(ls, depth, pol).value)
    decreases |ls|
  {
    hide CodeLine, BraceNet, TrimSpace, AccessLine, TlsLine, Unit, HeredocTerminator, Unlines, GoodSpan;
    var raw := ls[0];
    if HeredocTerminator(Code(raw)).Some? {
      var after := AfterTerminator(ls[1..], HeredocTerminator(Code(raw)).value);
      assert forall l :: after != [] && l in Front(after) ==> l in Front(ls);
      PolicyIsGood(after, depth, pol);
    } else {
      var trimmed, net := TrimSpace(Code(raw)), Net(raw);
      assert |ls| > 1 ==> raw in Front(ls);
      if depth == 1 && AccessLine(trimmed) {
        var n := SpanEnd(ls[1..], net).value;
        var rest := ls[1 + n..];
        assert rest != [] by { assert PolicyFrom([], depth, pol.(access := pol.access + [Unlines(ls[..1 + n])])).Err?; }
        SpanOf(ls, n);
        assert forall l :: l in Front(rest) ==> l in Front(ls);
        PolicyIsGood(rest, depth, pol.(access := pol.access + [Unlines(ls[..1 + n])]));
      } else {
        var now := if depth == 1 && TlsLine(trimmed) then pol.(tls := raw) else pol;
        if depth + net > 0 {
          assert ls[1..] != [] by { assert PolicyFrom([], depth + net, now).Err?; }
          assert forall l :: l in Front(ls[1..]) ==> l in Front(ls);
          PolicyIsGood(ls[1..], depth + net, now);
        }
      }
    }
  }

  lemma ExtractedIsGood(block: string)
    requires ExtractPolicy(block).Ok?
    ensures GoodPolicy(ExtractPolicy(block).value)
  {
    hide PolicyFrom, LogicalFrom, LinesOf, GoodPolicy, OpeningLine;
    var ls := LogicalLines(LinesOf(block));
    LinesOfText(block);
    LogicalUnits(LinesOf(block), false, []);
    var i := OpeningLine(ls).value;
    OpeningOpens(ls);
    var rest := ls[i + 1..];
    assert rest != [] ==> forall l :: l in Front(rest) ==> l in Front(ls);
    NoPolicyIsGood();
    PolicyIsGood(rest, BraceNet(ls[i]), NO_POLICY);
  }

  lemma NoPolicyIsGood()
    ensures GoodPolicy(NO_POLICY)
  {
  }

  lemma {:induction false} OpeningOpens(ls: seq<string>)
    requires OpeningLine(ls).Some?
    ensures var i := OpeningLine(ls).value; i < |ls| && BraceNet(ls[i]) > 0
  {
    hide TrimSpace, BraceNet;
    if ls != [] && OpeningLine(ls[1..]).Some? {
      OpeningOpens(ls[1..]);
    }
  }

  // ---- the maintenance block reads back ----

  lemma OneBacktick(a: string, b: string)
    requires Quotable(a) && Quotable(b)
    ensures OddBackticks(a + "`" + b)
  {
    NoBackticks(a);
    NoBackticks(b);
    assert "`"[1..] == "";
    assert OddBackticks("`");
    BackticksConcat(a, "`");
    BackticksConcat(a + "`", b);
  }

  const BODY_OPENS := "\t\tbody "

  /** The lines of the body argument: the first opens the literal, the last closes it. */
  function BodyLines(page: seq<string>): seq<string>
    requires page != []
  {
    if |page| == 1 then [BODY_OPENS + "`" + page[0] + "`"]
    else [BODY_OPENS + "`" + page[0]] + page[1..|page| - 1] + [page[|page| - 1] + "`"]
  }

  lemma BodyLineLines(page: seq<string>)
    requires page != []
    ensures BodyLine(page) == Unlines(BodyLines(page))
  {
    hide Unlines, BodyLine, BodyLines;
    if |page| == 1 {
      OneBodyLine(page);
    } else {
      MoreBodyLines(page);
    }
  }

  lemma OneBodyLine(page: seq<string>)
    requires |page| == 1
    ensures BodyLine(page) == Unlines(BodyLines(page))
  {
    hide Unlines;
    var head := BODY_OPENS + "`";
    UnlinesOne(page[0]);
    UnlinesOne(head + page[0] + "`");
    assert page == [page[0]] && BodyLines(page) == [head + page[0] + "`"];
  }

  lemma MoreBodyLines(page: seq<string>)
    requires |page| > 1
    ensures BodyLine(page) == Unlines(BodyLines(page))
  {
    hide Unlines, BODY_OPENS;
    var head := BODY_OPENS + "`";
    var mid, last := page[1..|page| - 1], page[|page| - 1];
    assert page == [page[0]] + (mid + [last]);
    assert BodyLines(page) == [head + page[0]] + (mid + [last + "`"]);
    UnlinesCons(page[0], mid + [last]);
    UnlinesCons(head + page[0], mid + [last + "`"]);
    UnlinesEnd(mid, last, "`");
    HeadOfBody(page);
  }

  lemma HeadOfBody(page: seq<string>)
    ensures BodyLine(page) == BODY_OPENS + "`" + Unlines(page) + "`"
  {
    hide Unlines;
  }

  lemma BodyLinesAreLines(page: seq<string>)
    requires GoodPage(page)
    ensures AreLines(BodyLines(page))
  {
    hide HeredocTerminator, Unlines;
    assert page[0] in page && page[|page| - 1] in page;
    forall l | l in BodyLines(page) ensures '\n' !in l {
      assert l == BodyLines(page)[0] || l == Last(BodyLines(page)) || l in page;
    }
  }

  lemma {:induction false} UnlinesEnd(ls: seq<string>, last: string, more: string)
    ensures Unlines(ls + [last + more]) == Unlines(ls + [last]) + more
  {
    hide Unlines;
    if ls == [] {
      UnlinesCons(last, []);
      UnlinesCons(last + more, []);
      assert ls + [last] == [last] + [] && ls + [last + more] == [last + more] + [];
    } else {
      UnlinesEnd(ls[1..], last, more);
      assert ls + [last] == [ls[0]] + (ls[1..] + [last]) && ls + [last + more] == [ls[0]] + (ls[1..] + [last + more]);
      UnlinesCons(ls[0], ls[1..] + [last]);
      UnlinesCons(ls[0], ls[1..] + [last + more]);
    }
  }

  lemma BodyIsUnit(page: seq<string>)
    requires GoodPage(page)
    ensures Unit(BodyLine(page))
  {
    hide Unlines, LinesOf, OddBackticks;
    hide HeredocTerminator;
    BodyLineLines(page);
    BodyLinesAreLines(page);
    LinesOfUnlines(BodyLines(page));
    var head := BODY_OPENS;
    assert '`' !in head && '\n' !in head;
    assert page[0] in page && page[|page| - 1] in page;
    if |page| == 1 {
      BackticksConcat(head + "`" + page[0], "`");
      OneBacktick(head, page[0]);
      OneBacktick("", "");
      assert "" + "`" + "" == "`";
      UnlinesCons(BodyLines(page)[0], []);
      assert BodyLines(page) == [BodyLines(page)[0]] + [];
    } else {
      OneBacktick(head, page[0]);
      OneBacktick(page[|page| - 1], "");
      assert page[|page| - 1] + "`" + "" == page[|page| - 1] + "`";
      var ls := BodyLines(page);
      forall i | 0 < i < |ls| - 1 ensures !OddBackticks(ls[i]) {
        assert ls[i] == page[i] && page[i] in page;
        NoBackticks(ls[i]);
      }
    }
  }

  lemma {:induction false} InsideLiteral(s: string, q: char)
    requires q !in s
    ensures CodeFrom(s + [q], Some(q)) == Some(s + [q]) && BraceFrom(s + [q], Some(q)) == 0
  {
    if s == "" {
      assert s + [q] == [q] && [q][1..] == "" && [q][..1] == [q];
      assert CodeFrom("", None) == Some("") && [q] + "" == [q];
    } else {
      assert (s + [q])[1..] == s[1..] + [q] && (s + [q])[..1] == s[..1] && s[0] in s;
      assert forall c :: c in s[1..] ==> c in s;
      InsideLiteral(s[1..], q);
      assert s[..1] + (s[1..] + [q]) == s + [q];
    }
  }

  lemma BodyReads(page: seq<string>)
    requires GoodPage(page)
    ensures CodeLine(BodyLine(page)) == Some(BodyLine(page)) && BraceNet(BodyLine(page)) == 0
  {
    hide Unlines, HeredocTerminator, BraceNet;
    NoBacktickIn(page);
    BodyOpensIsPlain();
    QuotedReads(BODY_OPENS, Unlines(page), '`');
    assert BodyLine(page) == BODY_OPENS + "`" + Unlines(page) + "`";
  }

  lemma LiteralReads(text: string, q: char)
    requires q !in text && IsQuote(q)
    ensures CodeFrom([q] + (text + [q]), None) == Some([q] + (text + [q])) && BraceFrom([q] + (text + [q]), None) == 0
  {
    var rest := [q] + (text + [q]);
    assert rest[1..] == text + [q] && rest[..1] == [q];
    InsideLiteral(text, q);
  }

  /** Plain text and then one quoted argument. */
  lemma QuotedReads(a: string, text: string, q: char)
    requires Balanced(a) && q !in text && IsQuote(q)
    ensures var l := a + [q] + text + [q]; CodeLine(l) == Some(l) && BraceNet(l) == 0
  {
    hide BraceNet;
    LiteralReads(text, q);
    var l, rest := a + [q] + text + [q], [q] + (text + [q]);
    assert l == a + rest;
    PlainThen(a, rest);
    PlainBraces(a, rest);
    NetIsBraces(rest);
  }

  lemma NetIsBraces(s: string)
    ensures BraceNet(s) == BraceFrom(s, None)
  {
  }

  lemma BodyOpensIsPlain()
    ensures Balanced(BODY_OPENS)
  {
    NoBraceChars(BODY_OPENS);
  }

  lemma {:induction false} NoBacktickIn(page: seq<string>)
    requires forall l :: l in page ==> '`' !in l
    ensures '`' !in Unlines(page)
  {
    if page != [] {
      assert page[0] in page && forall l :: l in page[1..] ==> l in page;
      NoBacktickIn(page[1..]);
    }
  }
}
