/** How many access directives a policy can hold: no more than there are lines
    that start one (internal/caddy/routes.go). */
module PolicyGates {
  import opened Wrappers
  import opened Lines
  import opened Text
  import opened TextLines
  import opened RouteLex
  import opened Routes
  import opened RouteSpaces
  import opened RouteItems
  import opened Webhook
  import opened SitePolicies
  import opened MaintenancePolicy

  predicate Gate(l: string) { AccessLine(TrimSpace(Code(l))) }

  /** The lines that start an access directive. */
  function Gates(ls: seq<string>): nat {
    if ls == [] then 0 else (if Gate(ls[0]) then 1 else 0) + Gates(ls[1..])
  }

  /** Those in the spans of a policy. */
  function GatesIn(access: seq<string>): nat {
    if access == [] then 0 else Gates(LogicalLines(LinesOf(access[0]))) + GatesIn(access[1..])
  }

  lemma {:induction false} GatesConcat(a: seq<string>, b: seq<string>)
    ensures Gates(a + b) == Gates(a) + Gates(b)
  {
    hide Gate;
    if a == [] {
      assert a + b == b;
    } else {
      assert (a + b)[1..] == a[1..] + b;
      GatesConcat(a[1..], b);
    }
  }

  lemma {:induction false} GatesInConcat(a: seq<string>, b: seq<string>)
    ensures GatesIn(a + b) == GatesIn(a) + GatesIn(b)
  {
    hide Gates, LinesOf, LogicalFrom;
    if a == [] {
      assert a + b == b;
    } else {
      assert (a + b)[1..] == a[1..] + b;
      GatesInConcat(a[1..], b);
    }
  }

  lemma GatesInSpan(span: seq<string>)
    requires span != [] && AllUnits(span)
    ensures GatesIn([Unlines(span)]) == Gates(span)
  {
    hide Gates, LinesOf, LogicalFrom, Unit, Unlines;
    UnitsRead(span);
    assert [Unlines(span)][1..] == [];
  }

  lemma GatesOfRest(ls: seq<string>, n: nat)
    requires n <= |ls|
    ensures Gates(ls) == Gates(ls[..n]) + Gates(ls[n..])
  {
    hide Gates;
    GatesConcat(ls[..n], ls[n..]);
    assert ls == ls[..n] + ls[n..];
  }

  /** Reading a block finds no more of them than it has. */
  lemma {:induction false} GatesRead(ls: seq<string>, depth: int, pol: SitePolicy)
    requires AllUnits(ls) && PolicyFrom(ls, depth, pol).Ok?
    ensures GatesIn(PolicyFrom(ls, depth, pol).value.access) <= GatesIn(pol.access) + Gates(ls)
    decreases |ls|
  {
    hide CodeLine, BraceNet, TrimSpace, AccessLine, TlsLine, Unit, HeredocTerminator, Unlines, Gates, GatesIn;
    var raw := ls[0];
    if HeredocTerminator(Code(raw)).Some? {
      var after := AfterTerminator(ls[1..], HeredocTerminator(Code(raw)).value);
      assert after == ls[|ls| - |after|..];
      GatesOfRest(ls, |ls| - |after|);
      GatesRead(after, depth, pol);
    } else {
      var trimmed, net := TrimSpace(Code(raw)), Net(raw);
      if depth == 1 && AccessLine(trimmed) {
        var n := SpanEnd(ls[1..], net).value;
        var span := ls[..1 + n];
        GatesOfRest(ls, 1 + n);
        GatesInSpan(span);
        GatesInConcat(pol.access, [Unlines(span)]);
        GatesRead(ls[1 + n..], depth, pol.(access := pol.access + [Unlines(span)]));
      } else {
        var now := if depth == 1 && TlsLine(trimmed) then pol.(tls := raw) else pol;
        if depth + net > 0 {
          GatesOfRest(ls, 1);
          GatesRead(ls[1..], depth + net, now);
        }
      }
    }
  }

  lemma {:induction false} GatesJoined(spans: seq<seq<string>>)
    requires AllSpans(spans)
    ensures GatesIn(Joined(spans)) == Gates(Flat(spans))
  {
    hide Unlines, Gates, GatesIn, SpanLines;
    if spans == [] {
      NoGates();
    } else {
      assert spans[0] in spans && forall s :: s in spans[1..] ==> s in spans;
      SpanIsUnits(spans[0]);
      GatesInSpan(spans[0]);
      GatesInConcat([Unlines(spans[0])], Joined(spans[1..]));
      GatesConcat(spans[0], Flat(spans[1..]));
      GatesJoined(spans[1..]);
    }
  }

  lemma NoGates()
    ensures Gates([]) == 0 && GatesIn([]) == 0
  {
  }

  lemma SpanIsUnits(span: seq<string>)
    requires SpanLines(span)
    ensures span != [] && AllUnits(span) && Reads(span[0]) && Gate(span[0])
  {
  }

  // ---- the tail of a maintenance block ----

  lemma BodyIsNoGate(page: seq<string>)
    requires GoodPage(page)
    ensures !Gate(BodyLine(page))
  {
    hide CodeLine, Trim, HeredocTerminator, BraceNet, Unlines;
    BodyCode(page);
    var x := "body `" + Unlines(page) + "`";
    assert BodyLine(page) == "\t\t" + x + "";
    assert x[0] == 'b' && x[1] == 'o' && x[|x| - 1] == '`';
    TrimOf("\t\t", x, "", IsSpace);
    assert "basic_auth"[1] == 'a' && "forward_auth"[0] == 'f';
    assert ("basic_auth" + " ")[1] == 'a' && ("forward_auth" + " ")[0] == 'f';
  }

  lemma NeutralIsNoGate(l: string, net: int)
    requires Neutral(l, net)
    ensures !Gate(l)
  {
    hide CodeLine, Trim, HeredocTerminator, BraceNet, TlsLine, AccessLine, Unit;
  }

  lemma TailHasNoGate(page: seq<string>)
    requires GoodPage(page)
    ensures Gates(TailLines(page)) == 0
  {
    hide Gate, Neutral, BodyLine, GoodPage;
    HeadersAreNeutral();
    RespondIsNeutral();
    BraceIsNeutral();
    LastBrace();
    BodyIsNoGate(page);
    forall l | l in TailLines(page) ensures !Gate(l) {
      if l == "\trespond 503 {" {
        NeutralIsNoGate(l, 1);
      } else if l == "\t}" || l == "}" {
        NeutralIsNoGate(l, -1);
      } else if l != BodyLine(page) {
        NeutralIsNoGate(l, 0);
      }
    }
    NoneOfThem(TailLines(page));
  }

  lemma {:induction false} NoneOfThem(ls: seq<string>)
    requires forall l :: l in ls ==> !Gate(l)
    ensures Gates(ls) == 0
  {
    hide Gate;
    if ls != [] {
      assert ls[0] in ls && forall l :: l in ls[1..] ==> l in ls;
      NoneOfThem(ls[1..]);
    }
  }

  // ---- a block that starts too deep ----

  /** Read from within a block that stays open, the tail closes one brace only. */
  lemma TailStaysOpen(page: seq<string>, depth: int, pol: SitePolicy)
    requires GoodPage(page) && depth > 1
    ensures PolicyFrom(TailLines(page), depth, pol) == Err(NoClosingBrace)
  {
    hide PolicyFrom, Neutral, BodyLine, GoodPage;
    HeadersAreNeutral();
    RespondIsNeutral();
    BraceIsNeutral();
    LastBrace();
    BodyCode(page);
    var ls := TailLines(page);
    assert ls == [ls[0]] + ls[1..] && ls[1..] == [ls[1]] + ls[2..] && ls[2..] == [ls[2]] + ls[3..];
    assert ls[3..] == [BodyLine(page)] + ["\t}", "}"] && ["\t}", "}"] == ["\t}"] + ["}"] && ["}"] == ["}"] + [];
    NeutralReads(ls[0], 0, ls[1..], depth, pol);
    NeutralReads(ls[1], 0, ls[2..], depth, pol);
    NeutralReads(ls[2], 1, ls[3..], depth, pol);
    NeutralStep(BodyLine(page), 0, ["\t}", "}"], depth + 1, pol);
    NeutralReads("\t}", -1, ["}"], depth + 1, pol);
    NeutralReads("}", -1, [], depth, pol);
    NothingCloses(depth - 1, pol);
  }

  lemma NothingCloses(depth: int, pol: SitePolicy)
    ensures PolicyFrom([], depth, pol) == Err(NoClosingBrace)
  {
  }

  lemma DeepStep(l: string, rest: seq<string>, depth: int, pol: SitePolicy)
    requires Reads(l) && depth > 1
    ensures PolicyFrom([l] + rest, depth, pol) ==
      if depth + Net(l) <= 0 then Ok(pol) else PolicyFrom(rest, depth + Net(l), pol)
  {
    hide BraceNet, HeredocTerminator, CodeFrom, TlsLine, AccessLine, TrimSpace, Unlines, SpanEnd, Unit;
    assert ([l] + rest)[1..] == rest;
  }

  /** A first span passed by is one that is missing. */
  lemma FirstGateIsLost(spans: seq<seq<string>>, page: seq<string>, depth: int)
    requires AllSpans(spans) && spans != [] && GoodPage(page) && depth > 1
    ensures var r := PolicyFrom(Flat(spans) + TailLines(page), depth, NO_POLICY);
      r.Ok? ==> r.value.access != Joined(spans)
  {
    hide Unlines, Gates, GatesIn, SpanLines, PolicyFrom, TailLines, GoodPage, Gate, Reads, Unit, BraceNet, CodeLine;
    assert spans[0] in spans;
    SpanIsUnits(spans[0]);
    var l := spans[0][0];
    var all := Flat(spans) + TailLines(page);
    var rest := all[1..];
    assert all == [l] + rest;
    DeepStep(l, rest, depth, NO_POLICY);
    NoGates();
    GatesJoined(spans);
    TailHasNoGate(page);
    GatesConcat(Flat(spans), TailLines(page));
    GatesConcat([l], rest);
    OneGate(l);
    PolicyLinesUnits(spans, page);
    if depth + Net(l) > 0 && PolicyFrom(rest, depth + Net(l), NO_POLICY).Ok? {
      GatesRead(rest, depth + Net(l), NO_POLICY);
    }
  }

  lemma OneGate(l: string)
    requires Gate(l)
    ensures Gates([l]) == 1
  {
    hide Gate;
    assert [l][1..] == [];
  }

  lemma PolicyLinesUnits(spans: seq<seq<string>>, page: seq<string>)
    requires AllSpans(spans) && GoodPage(page)
    ensures AllUnits(Flat(spans) + TailLines(page))
  {
    hide SpanLines, TailLines, GoodPage, Unit;
    FlatUnits(spans);
    TailIsUnits(page);
  }

  /** No policy is read back from within a brace that stays open. */
  lemma OpenLosesPolicy(tls: string, spans: seq<seq<string>>, page: seq<string>, depth: int)
    requires TlsReadsBack(tls) && AllSpans(spans) && GoodPage(page) && depth > 1
    ensures PolicyFrom(PolicyLines(tls, spans, page), depth, NO_POLICY) != Ok(SitePolicy(tls, Joined(spans)))
  {
    hide PolicyFrom, TailLines, GoodPage, AllSpans, Reads, BraceNet, CodeLine, TlsLine, Joined, Trim;
    var rest := Flat(spans) + TailLines(page);
    if tls == "" {
      assert [] + rest == rest;
    } else {
      DeepStep(tls, rest, depth, NO_POLICY);
    }
    if spans == [] {
      assert Flat([]) + TailLines(page) == TailLines(page);
      TailStaysOpen(page, depth, NO_POLICY);
    } else {
      FirstGateIsLost(spans, page, depth);
    }
  }

  // ---- no gate is missed ----

  lemma {:induction false} SpanDepth(ls: seq<string>, net: int, k: nat)
    requires SpanEnd(ls, net).Ok? && k <= SpanEnd(ls, net).value
    ensures k < SpanEnd(ls, net).value <==> DepthFrom(ls, net, k) > 0
  {
    hide Net, Coded;
    if k > 0 {
      SpanDepth(ls[1..], net + Net(ls[0]), k - 1);
    }
  }

  lemma {:induction false} PolicyGrows(ls: seq<string>, depth: int, pol: SitePolicy)
    requires PolicyFrom(ls, depth, pol).Ok?
    ensures var p := PolicyFrom(ls, depth, pol).value;
      pol.access <= p.access && (pol.tls != "" ==> p.tls == pol.tls)
    decreases |ls|
  {
    hide Net, Coded, Code, HeredocTerminator, AccessLine, TlsLine, Unlines, AfterTerminator;
    var raw := ls[0];
    if HeredocTerminator(Code(raw)).Some? {
      PolicyGrows(AfterTerminator(ls[1..], HeredocTerminator(Code(raw)).value), depth, pol);
    } else {
      var trimmed, net := TrimSpace(Code(raw)), Net(raw);
      if depth == 1 && AccessLine(trimmed) {
        var n := SpanEnd(ls[1..], net).value;
        PolicyGrows(ls[1 + n..], depth, pol.(access := pol.access + [Unlines(ls[..1 + n])]));
      } else {
        var now := if depth == 1 && TlsLine(trimmed) then pol.(tls := raw) else pol;
        if depth + net > 0 {
          PolicyGrows(ls[1..], depth + net, now);
        }
      }
    }
  }

  /** Does what a line says start with the directive? */
  predicate Directive(l: string, name: string) { TrimSpace(Code(l)) == name || name + " " <= TrimSpace(Code(l)) }

  lemma GateIs(l: string)
    ensures Gate(l) <==> Directive(l, "basic_auth") || Directive(l, "forward_auth")
    ensures TlsLine(TrimSpace(Code(l))) <==> Directive(l, "tls")
  {
    hide Code, Trim;
    var t := TrimSpace(Code(l));
    assert TlsLine(t) ==> t[0] == 't';
    assert Directive(l, "basic_auth") ==> t[0] == 'b';
    assert Directive(l, "forward_auth") ==> t[0] == 'f';
  }

  /** The policy has the whole directive that the line starts, if it starts one. */
  ghost predicate HasDirective(p: SitePolicy, l: string) {
    && (Directive(l, "basic_auth") || Directive(l, "forward_auth") ==>
         exists a :: a in p.access && (a == l || l + "\n" <= a))
    && (Directive(l, "tls") ==> p.tls == l)
  }

  /** No line up to the i-th starts a heredoc or is past the end of the block, and
      the i-th is at its top level. */
  predicate TopAt(ls: seq<string>, depth: int, i: nat) {
    && i < |ls| && DepthFrom(ls, depth, i) == 1
    && forall j :: 0 <= j <= i ==> DepthFrom(ls, depth, j) >= 1 && HeredocTerminator(Code(ls[j])).None?
  }

  lemma TopLater(ls: seq<string>, depth: int, i: nat, k: nat)
    requires TopAt(ls, depth, i) && k <= i
    ensures TopAt(ls[k..], DepthFrom(ls, depth, k), i - k)
  {
    hide Net, HeredocTerminator, Code, DepthFrom;
    DepthShift(ls, depth, k, i - k);
    forall j | 0 <= j <= i - k
      ensures DepthFrom(ls[k..], DepthFrom(ls, depth, k), j) >= 1 && HeredocTerminator(Code(ls[k..][j])).None?
    {
      DepthShift(ls, depth, k, j);
      assert DepthFrom(ls, depth, k + j) >= 1 && ls[k..][j] == ls[k + j];
    }
  }

  lemma {:induction false} DirectiveIsFound(ls: seq<string>, depth: int, pol: SitePolicy, i: nat)
    requires PolicyFrom(ls, depth, pol).Ok? && TopAt(ls, depth, i)
    ensures HasDirective(PolicyFrom(ls, depth, pol).value, ls[i])
    decreases |ls|
  {
    hide Net, Coded, Code, HeredocTerminator, Unlines, HasDirective, Trim, AccessLine;
    var trimmed, net := TrimSpace(Code(ls[0])), Net(ls[0]);
    assert DepthFrom(ls, depth, 0) == depth;
    if i == 0 {
      FirstDirective(ls, pol);
    } else if depth == 1 && AccessLine(trimmed) {
      var n := GateTaken(ls, pol);
      SpanIsPassed(ls, i, n);
      TopLater(ls, depth, i, n + 1);
      DirectiveIsFound(ls[1 + n..], depth, pol.(access := pol.access + [Unlines(ls[..1 + n])]), i - n - 1);
    } else {
      assert DepthFrom(ls, depth, 1) == depth + net;
      TopLater(ls, depth, i, 1);
      DirectiveIsFound(ls[1..], depth + net, if depth == 1 && TlsLine(trimmed) then pol.(tls := ls[0]) else pol, i - 1);
    }
  }

  /** A line at the top level is not inside the span before it. */
  lemma SpanIsPassed(ls: seq<string>, i: nat, n: nat)
    requires TopAt(ls, 1, i) && i > 0 && SpanEnd(ls[1..], Net(ls[0])) == Ok(n)
    ensures n < i && DepthFrom(ls, 1, n + 1) == 1
  {
    hide Net, Code, HeredocTerminator, SpanEnd;
    var k := if i <= n then i - 1 else n;
    SpanDepth(ls[1..], Net(ls[0]), k);
    DeeperBy(ls[1..], Net(ls[0]), k);
    assert DepthFrom(ls, 1, k + 1) == DepthFrom(ls[1..], 1 + Net(ls[0]), k);
  }

  lemma {:induction false} DeeperBy(ls: seq<string>, net: int, k: nat)
    requires k <= |ls|
    ensures DepthFrom(ls, 1 + net, k) == 1 + DepthFrom(ls, net, k)
  {
    hide Net;
    if k > 0 {
      DeeperBy(ls[1..], net + Net(ls[0]), k - 1);
    }
  }

  lemma FirstDirective(ls: seq<string>, pol: SitePolicy)
    requires PolicyFrom(ls, 1, pol).Ok? && ls != [] && HeredocTerminator(Code(ls[0])).None?
    ensures HasDirective(PolicyFrom(ls, 1, pol).value, ls[0])
  {
    hide Directive, PolicyFrom, Unlines, AccessLine, TlsLine, Code, HeredocTerminator;
    GateIs(ls[0]);
    if Gate(ls[0]) {
      FirstGate(ls, pol);
    }
    if Directive(ls[0], "tls") {
      FirstTls(ls, pol);
    }
  }

  lemma FirstGate(ls: seq<string>, pol: SitePolicy)
    requires PolicyFrom(ls, 1, pol).Ok? && ls != [] && HeredocTerminator(Code(ls[0])).None?
    requires AccessLine(TrimSpace(Code(ls[0])))
    ensures exists a :: a in PolicyFrom(ls, 1, pol).value.access && (a == ls[0] || ls[0] + "\n" <= a)
  {
    hide Unlines, PolicyFrom, SpanEnd;
    var n := GateTaken(ls, pol);
    var span := ls[..1 + n];
    var more := pol.(access := pol.access + [Unlines(span)]);
    PolicyGrows(ls[1 + n..], 1, more);
    hide *;
    assert more.access[|pol.access|] == Unlines(span);
    assert span == [ls[0]] + span[1..];
    UnlinesCons(ls[0], span[1..]);
    assert Unlines(span) in PolicyFrom(ls, 1, pol).value.access;
  }

  /** An access directive is read up to the end of its span. */
  lemma GateTaken(ls: seq<string>, pol: SitePolicy) returns (n: nat)
    requires PolicyFrom(ls, 1, pol).Ok? && ls != [] && HeredocTerminator(Code(ls[0])).None?
    requires AccessLine(TrimSpace(Code(ls[0])))
    ensures SpanEnd(ls[1..], Net(ls[0])) == Ok(n)
    ensures PolicyFrom(ls, 1, pol) == PolicyFrom(ls[1 + n..], 1, pol.(access := pol.access + [Unlines(ls[..1 + n])]))
  {
    hide Net, Coded, Code, HeredocTerminator, Unlines, AccessLine, TlsLine, Trim;
    n := SpanEnd(ls[1..], Net(ls[0])).value;
  }

  lemma FirstTls(ls: seq<string>, pol: SitePolicy)
    requires PolicyFrom(ls, 1, pol).Ok? && ls != [] && HeredocTerminator(Code(ls[0])).None?
    requires TlsLine(TrimSpace(Code(ls[0])))
    ensures PolicyFrom(ls, 1, pol).value.tls == ls[0]
  {
    hide Net, Coded, Code, HeredocTerminator, Unlines, Trim, SpanEnd;
    NothingSaid();
    assert ls[0] != "";
    if 1 + Net(ls[0]) > 0 {
      PolicyGrows(ls[1..], 1 + Net(ls[0]), pol.(tls := ls[0]));
    }
  }

  lemma {:induction false} SpanFound(ls: seq<string>, net: int, k: nat)
    requires k <= |ls| && DepthFrom(ls, net, k) <= 0 && forall l :: l in ls ==> Coded(l)
    ensures SpanEnd(ls, net).Ok? && SpanEnd(ls, net).value <= k
  {
    hide Net, Coded;
    if net > 0 {
      assert ls[0] in ls && forall l :: l in ls[1..] ==> l in ls;
      SpanFound(ls[1..], net + Net(ls[0]), k - 1);
    }
  }

  /** The lines of a block after its first, as they should be: closed quotes, no
      heredoc, the block open up to its last line, a lone brace that closes it. */
  ghost predicate Closes(ls: seq<string>, depth: int) {
    && ls != [] && TrimSpace(Code(ls[|ls| - 1])) == "}" && Net(ls[|ls| - 1]) == -1
    && (forall l :: l in ls ==> Coded(l) && HeredocTerminator(Code(l)).None?)
    && (forall i :: 0 <= i < |ls| ==> DepthFrom(ls, depth, i) >= 1) && DepthFrom(ls, depth, |ls|) == 0
  }

  lemma ClosesLater(ls: seq<string>, depth: int, k: nat)
    requires Closes(ls, depth) && k < |ls|
    ensures Closes(ls[k..], DepthFrom(ls, depth, k))
  {
    hide Net, HeredocTerminator, Code, DepthFrom, Coded;
    var rest := ls[k..];
    assert rest[|rest| - 1] == ls[|ls| - 1];
    DepthShift(ls, depth, k, |rest|);
    forall i | 0 <= i < |rest| ensures DepthFrom(rest, DepthFrom(ls, depth, k), i) >= 1 {
      DepthShift(ls, depth, k, i);
      assert DepthFrom(ls, depth, k + i) >= 1;
    }
  }

  lemma LastOpen(ls: seq<string>, depth: int)
    requires Closes(ls, depth)
    ensures DepthFrom(ls, depth, |ls| - 1) == 1
  {
    hide Net, HeredocTerminator, Code, Coded, DepthFrom;
    var last := ls[|ls| - 1..];
    DepthShift(ls, depth, |ls| - 1, 1);
    OneLine(last, DepthFrom(ls, depth, |ls| - 1));
  }

  lemma OneLine(ls: seq<string>, depth: int)
    requires |ls| == 1
    ensures DepthFrom(ls, depth, 1) == depth + Net(ls[0])
  {
    hide Net;
    assert DepthFrom(ls[1..], depth + Net(ls[0]), 0) == depth + Net(ls[0]);
  }

  /** At most one line at the top level is a tls directive, none if one was seen. */
  ghost predicate OneTls(ls: seq<string>, depth: int, seen: bool) {
    forall i :: 0 <= i < |ls| && DepthFrom(ls, depth, i) == 1 && Directive(ls[i], "tls") ==>
      !seen && forall j :: 0 <= j < i && DepthFrom(ls, depth, j) == 1 ==> !Directive(ls[j], "tls")
  }

  lemma OneTlsLater(ls: seq<string>, depth: int, seen: bool, k: nat, now: bool)
    requires OneTls(ls, depth, seen) && k <= |ls|
    requires now ==> seen || exists j :: 0 <= j < k && DepthFrom(ls, depth, j) == 1 && Directive(ls[j], "tls")
    ensures OneTls(ls[k..], DepthFrom(ls, depth, k), now)
  {
    hide Net, DepthFrom, Directive;
    var rest, d := ls[k..], DepthFrom(ls, depth, k);
    forall i | 0 <= i < |rest| && DepthFrom(rest, d, i) == 1 && Directive(rest[i], "tls")
      ensures !now && forall j :: 0 <= j < i && DepthFrom(rest, d, j) == 1 ==> !Directive(rest[j], "tls")
    {
      DepthShift(ls, depth, k, i);
      assert rest[i] == ls[k + i];
      forall j | 0 <= j < i && DepthFrom(rest, d, j) == 1 ensures !Directive(rest[j], "tls") {
        DepthShift(ls, depth, k, j);
        assert rest[j] == ls[k + j];
      }
    }
  }

  lemma {:induction false} PolicyReadsFrom(ls: seq<string>, depth: int, pol: SitePolicy)
    requires Closes(ls, depth) && OneTls(ls, depth, pol.tls != "")
    ensures PolicyFrom(ls, depth, pol).Ok?
    decreases |ls|
  {
    hide Net, Coded, Code, HeredocTerminator, Unlines, Closes, OneTls, TrimSpace;
    FirstReads(ls, depth, pol);
    var raw := ls[0];
    var trimmed, net := TrimSpace(Code(raw)), Net(raw);
    if depth == 1 && AccessLine(trimmed) {
      SpanCloses(ls);
      var n := SpanEnd(ls[1..], net).value;
      ClosesLater(ls, depth, 1 + n);
      OneTlsLater(ls, depth, pol.tls != "", 1 + n, pol.tls != "");
      PolicyReadsFrom(ls[1 + n..], 1, pol.(access := pol.access + [Unlines(ls[..1 + n])]));
    } else {
      var now := if depth == 1 && TlsLine(trimmed) then pol.(tls := raw) else pol;
      if depth + net > 0 {
        assert DepthFrom(ls, depth, 1) == depth + net;
        MoreLines(ls, depth);
        ClosesLater(ls, depth, 1);
        assert DepthFrom(ls, depth, 0) == depth;
        GateIs(raw);
        OneTlsLater(ls, depth, pol.tls != "", 1, now.tls != "");
        PolicyReadsFrom(ls[1..], depth + net, now);
      }
    }
  }

  lemma MoreLines(ls: seq<string>, depth: int)
    requires Closes(ls, depth) && depth + Net(ls[0]) > 0
    ensures |ls| > 1
  {
    hide Net, HeredocTerminator, Code, Coded;
    if |ls| == 1 {
      OneLine(ls, depth);
    }
  }

  lemma FirstReads(ls: seq<string>, depth: int, pol: SitePolicy)
    requires Closes(ls, depth) && OneTls(ls, depth, pol.tls != "")
    ensures ls != [] && Coded(ls[0]) && HeredocTerminator(Code(ls[0])).None?
    ensures depth == 1 && TlsLine(TrimSpace(Code(ls[0]))) ==> pol.tls == ""
  {
    hide Net, HeredocTerminator, Code, Coded, TrimSpace;
    assert ls[0] in ls && DepthFrom(ls, depth, 0) == depth;
    GateIs(ls[0]);
  }

  lemma SpanEnds(ls: seq<string>, depth: int, k: nat)
    requires k <= |ls| && DepthFrom(ls, depth, k) == 1 && forall l :: l in ls ==> Coded(l)
    requires forall i :: 0 <= i <= k ==> DepthFrom(ls, depth, i) >= 1
    ensures var r := SpanEnd(ls, depth - 1); r.Ok? && r.value <= k && DepthFrom(ls, depth, r.value) == 1
  {
    hide Net, Coded, DepthFrom;
    DeeperBy(ls, depth - 1, k);
    SpanFound(ls, depth - 1, k);
    var n := SpanEnd(ls, depth - 1).value;
    SpanDepth(ls, depth - 1, n);
    DeeperBy(ls, depth - 1, n);
  }

  lemma DepthNext(ls: seq<string>, depth: int, i: nat)
    requires i < |ls|
    ensures DepthFrom(ls[1..], depth + Net(ls[0]), i) == DepthFrom(ls, depth, i + 1)
  {
    hide Net;
  }

  lemma RestCloses(ls: seq<string>, i: nat)
    requires Closes(ls, 1) && i + 1 < |ls|
    ensures DepthFrom(ls[1..], 1 + Net(ls[0]), i) == DepthFrom(ls, 1, i + 1) >= 1
  {
    hide HeredocTerminator, Code, Coded, TrimSpace, Net, DepthFrom;
    DepthNext(ls, 1, i);
  }

  lemma RestStaysOpen(ls: seq<string>, depth: int)
    requires Closes(ls, 1) && |ls| > 1 && depth == 1 + Net(ls[0])
    ensures forall i :: 0 <= i <= |ls| - 2 ==> DepthFrom(ls[1..], depth, i) >= 1
    ensures DepthFrom(ls[1..], depth, |ls| - 2) == 1 && forall l :: l in ls[1..] ==> Coded(l)
  {
    hide HeredocTerminator, Code, Coded, TrimSpace, Net, DepthFrom;
    LastOpen(ls, 1);
    assert forall l :: l in ls[1..] ==> l in ls;
    hide Closes;
    forall i | 0 <= i <= |ls| - 2 ensures DepthFrom(ls[1..], depth, i) >= 1 {
      RestCloses(ls, i);
    }
    RestCloses(ls, |ls| - 2);
  }

  /** An access directive at the top level ends before the block does. */
  lemma SpanCloses(ls: seq<string>)
    requires Closes(ls, 1) && AccessLine(TrimSpace(Code(ls[0])))
    ensures var r := SpanEnd(ls[1..], Net(ls[0])); r.Ok? && 1 + r.value < |ls| && DepthFrom(ls, 1, 1 + r.value) == 1
  {
    hide Code, Coded, TrimSpace, AccessLine, Net, SpanEnd, DepthFrom, Closes;
    NoLoneBrace(ls);
    var depth := 1 + Net(ls[0]);
    RestStaysOpen(ls, depth);
    SpanEnds(ls[1..], depth, |ls| - 2);
    RestCloses(ls, SpanEnd(ls[1..], depth - 1).value);
  }

  lemma NoLoneBrace(ls: seq<string>)
    requires Closes(ls, 1) && AccessLine(TrimSpace(Code(ls[0])))
    ensures |ls| > 1
  {
    hide HeredocTerminator, Code, Coded, DepthFrom, BraceNet, Trim, Net;
    GateIs(ls[0]);
  }

  /** A site block that is closed, with no quote left open, no heredoc and one tls
      directive at most, is read: its policy is never refused. */
  lemma PolicyReads(block: string, first: nat)
    requires var ls := LogicalLines(LinesOf(block));
      && SaysFirst(ls, first) && TrimSpace(ls[first])[|TrimSpace(ls[first])| - 1] == '{' && BraceNet(ls[first]) == 1
      && Closes(ls[first + 1..], 1) && OneTls(ls[first + 1..], 1, false)
    ensures ExtractPolicy(block).Ok?
  {
    hide LogicalLines, LinesOf, PolicyFrom, BraceNet, Closes, OneTls, Silent, TrimSpace;
    var ls := LogicalLines(LinesOf(block));
    OpeningLineIs(ls);
    assert OpensSite(ls);
    FirstIsOne(ls, OpeningLine(ls).value, first);
    PolicyReadsFrom(ls[first + 1..], 1, NO_POLICY);
  }

  lemma NothingSaid()
    ensures TrimSpace(Code("")) == ""
  {
  }

  lemma FirstIsOne(ls: seq<string>, a: nat, b: nat)
    requires SaysFirst(ls, a) && SaysFirst(ls, b)
    ensures a == b
  {
    hide Silent;
  }

  /** Whatever guards a site, or says how it is encrypted, at the top level of its
      block is in the policy: each such directive whole, from the line that starts
      it. */
  lemma PolicyIsWhole(block: string, first: nat, i: nat)
    requires ExtractPolicy(block).Ok?
    requires var ls := LogicalLines(LinesOf(block));
      SaysFirst(ls, first) && first < i < |ls| && TopAt(ls[first + 1..], BraceNet(ls[first]), i - first - 1)
    ensures var p, l := ExtractPolicy(block).value, LogicalLines(LinesOf(block))[i];
      && (Directive(l, "basic_auth") || Directive(l, "forward_auth") ==>
            exists a :: a in p.access && (a == l || l + "\n" <= a))
      && (Directive(l, "tls") ==> p.tls == l)
  {
    hide LogicalLines, LinesOf, PolicyFrom, BraceNet, TopAt, Directive, Silent;
    var ls := LogicalLines(LinesOf(block));
    OpeningLineIs(ls);
    var o := OpeningLine(ls).value;
    FirstIsOne(ls, o, first);
    DirectiveIsFound(ls[first + 1..], BraceNet(ls[first]), NO_POLICY, i - first - 1);
  }
}
