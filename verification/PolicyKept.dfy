/** Enabling maintenance keeps a site's policy through the file: the block is
    stamped, the webhook fragment injected, and the region read back
    (internal/caddy/caddy.go, routes.go, webhook.go). */
module PolicyKept {
  import opened Wrappers
  import opened Lines
  import opened Text
  import opened TextLines
  import opened Regions
  import opened RegionLaws
  import opened RegionEdit
  import opened RouteLex
  import opened Routes
  import opened RouteAddress
  import opened RouteSpaces
  import opened RouteItems
  import opened Render
  import opened Webhook
  import opened CaddyFile
  import opened SitePolicies
  import opened MaintenancePolicy
  import opened PolicyGates
  import opened Maintenance
  import opened MaintenanceRuns

  // ---- the fragment carries no policy ----

  /** A line on its own that changes the depth by net. */
  predicate Idle(l: string, net: int) { Reads(l) && Net(l) == net }

  /** A webhook path that the parser reads as the rest of one line, braces
      balanced. */
  predicate PathReads(cfg: WebhookConfig) { Idle("\t\tpath " + cfg.path, 0) }

  lemma Passes(l: string, net: int, rest: seq<string>, depth: int, pol: SitePolicy)
    requires Idle(l, net) && depth + net > 0 && (depth == 1 ==> NoDirective(TrimSpace(Code(l))))
    ensures PolicyFrom([l] + rest, depth, pol) == PolicyFrom(rest, depth + net, pol)
  {
    hide BraceNet, HeredocTerminator, CodeFrom, TlsLine, AccessLine, TrimSpace, Unlines, SpanEnd, Unit;
    assert ([l] + rest)[1..] == rest;
  }

  /** A comment without quotes, one line. */
  lemma CommentIdles(l: string)
    requires '\n' !in l && '`' !in l && TrimSpace(l) != "" && TrimSpace(l)[0] == '#'
    ensures Idle(l, 0) && NoDirective(TrimSpace(Code(l)))
  {
    hide CodeFrom, BraceNet, HeredocTerminator, TrimSpace, OddBackticks;
    CommentCode(l);
    BlankLine(Code(l));
    BlankBraces(Code(l));
    EmptyIsNoDirective();
    NoBackticks(l);
    OneLineUnit(l);
  }

  lemma EmptyIsNoDirective()
    ensures NoDirective("")
  {
  }

  lemma {:induction false} BlankBraces(s: string)
    requires forall c :: c in s ==> IsSpace(c)
    ensures BraceNet(s) == 0
  {
    if s != "" {
      assert s[0] in s && forall c :: c in s[1..] ==> c in s;
      BlankBraces(s[1..]);
    }
  }

  lemma PlainIdles(l: string, net: int)
    requires PlainText(l) && '<' !in l && BraceNet(l) == net
    ensures Idle(l, net) && Code(l) == l
  {
    hide BraceNet, HeredocTerminator, CodeFrom, OddBackticks;
    PlainCode(l);
    NoAngle(l);
    OneLineUnit(l);
    NoBackticks(l);
  }

  lemma NameIsInert(app: string)
    requires ValidName(app)
    ensures Inert(app)
  {
  }

  lemma {:induction false} DigitsAreInert(n: nat)
    ensures Inert(Digits(n))
  {
    if n >= 10 {
      DigitsAreInert(n / 10);
    }
  }

  lemma MatcherWord()
    ensures Inert("\t@teploy_hook_")
  {
  }

  lemma HandleWord()
    ensures Inert("\thandle @teploy_hook_")
  {
  }

  lemma MethodWord()
    ensures Inert("\t\tmethod POST")
  {
  }

  lemma BraceWord()
    ensures PlainText(" {") && '<' !in " {"
  {
  }

  lemma ProxyWords()
    ensures Inert(HOOK_PROXY)
  {
    hide Inert;
    ProxyWord();
    DockerWord();
    InertConcat("\t\treverse_proxy ", "host.docker.internal:");
  }

  lemma ProxyWord()
    ensures Inert("\t\treverse_proxy ")
  {
  }

  lemma DockerWord()
    ensures Inert("host.docker.internal:")
  {
  }

  /** Inert words around a name, and a brace that opens. */
  lemma OpensBrace(a: string, app: string)
    requires Inert(a) && Inert(app) && |a| >= 2 && a[0] == '\t' && !IsSpace(a[1]) && a[1] != 't' && a[1] != 'b' &&
      a[1] != 'f'
    ensures Idle(a + app + " {", 1) && NoDirective(TrimSpace(Code(a + app + " {")))
  {
    hide BraceFrom, NoDirective, TrimSpace;
    BraceWord();
    InertConcat(a, app);
    NoBraces();
    NoBraceChars(a + app);
    PlainBraces(a + app, " {");
    var l := a + app + " {";
    assert forall c :: c in l ==> c in a + app || c in " {";
    PlainIdles(l, 1);
    TabbedHead(l);
    OtherHead(TrimSpace(l));
  }

  lemma InertIdles(l: string)
    requires Inert(l)
    ensures Idle(l, 0)
  {
    hide BraceFrom;
    NoBraceChars(l);
    PlainIdles(l, 0);
  }

  lemma BraceIdles()
    ensures Idle("\t}", -1)
  {
    hide BraceFrom, CodeFrom, HeredocTerminator, NoDirective, TrimSpace, Unit;
    BraceIsNeutral();
  }

  lemma HookComment(prefix: string, app: string)
    requires ValidName(app) && (prefix == HOOK_BEGIN || prefix == HOOK_END)
    ensures Idle("\t" + prefix + app, 0) && NoDirective(TrimSpace(Code("\t" + prefix + app)))
  {
    hide ValidName, TrimSpace, NoDirective, Idle;
    HookTrims(app);
    var l := "\t" + prefix + app;
    ValidNameTrimmed(app);
    NameIsInert(app);
    assert '\n' !in prefix && '`' !in prefix;
    assert TrimSpace(l)[0] == prefix[0] == '#';
    assert forall c :: c in l ==> c == '\t' || c in prefix || c in app;
    CommentIdles(l);
  }

  /** What each line of the fragment does to the depth. */
  lemma FragmentIdles(app: string, cfg: WebhookConfig)
    requires ValidName(app) && PathReads(cfg)
    ensures var f := FragmentLines(app, cfg);
      && |f| == 9 && Idle(f[0], 0) && Idle(f[1], 1) && Idle(f[2], 0) && Idle(f[3], 0) && Idle(f[4], -1)
      && Idle(f[5], 1) && Idle(f[6], 0) && Idle(f[7], -1) && Idle(f[8], 0)
      && NoDirective(TrimSpace(Code(f[0]))) && NoDirective(TrimSpace(Code(f[1])))
      && NoDirective(TrimSpace(Code(f[5]))) && NoDirective(TrimSpace(Code(f[8])))
  {
    hide ValidName, TrimSpace, NoDirective, Idle, Inert, Digits, CodeLine;
    NameIsInert(app);
    DigitsAreInert(cfg.port);
    MatcherWord();
    HandleWord();
    MethodWord();
    ProxyWords();
    HookComment(HOOK_BEGIN, app);
    HookComment(HOOK_END, app);
    OpensBrace("\t@teploy_hook_", app);
    OpensBrace("\thandle @teploy_hook_", app);
    InertIdles("\t\tmethod POST");
    InertConcat(HOOK_PROXY, Digits(cfg.port));
    InertIdles(HOOK_PROXY + Digits(cfg.port));
    BraceIdles();
  }

  lemma PassSlice(f: seq<string>, i: nat, net: int, rest: seq<string>, depth: int, pol: SitePolicy)
    requires i < |f| && Idle(f[i], net) && depth + net > 0 && (depth == 1 ==> NoDirective(TrimSpace(Code(f[i]))))
    ensures PolicyFrom(f[i..] + rest, depth, pol) == PolicyFrom(f[i + 1..] + rest, depth + net, pol)
  {
    hide Idle, NoDirective, PolicyFrom, TrimSpace;
    Passes(f[i], net, f[i + 1..] + rest, depth, pol);
    assert f[i..] + rest == [f[i]] + (f[i + 1..] + rest);
  }

  /** A fragment at the top of a site block adds nothing to its policy. */
  lemma FragmentPasses(app: string, cfg: WebhookConfig, rest: seq<string>, pol: SitePolicy)
    requires ValidName(app) && PathReads(cfg)
    ensures PolicyFrom(FragmentLines(app, cfg) + rest, 1, pol) == PolicyFrom(rest, 1, pol)
    ensures AllUnits(FragmentLines(app, cfg))
  {
    hide ValidName, Idle, NoDirective, PolicyFrom, TrimSpace, FragmentLines, CodeLine;
    FragmentIdles(app, cfg);
    var f := FragmentLines(app, cfg);
    PassSlice(f, 0, 0, rest, 1, pol);
    PassSlice(f, 1, 1, rest, 1, pol);
    PassSlice(f, 2, 0, rest, 2, pol);
    PassSlice(f, 3, 0, rest, 2, pol);
    PassSlice(f, 4, -1, rest, 2, pol);
    PassSlice(f, 5, 1, rest, 1, pol);
    PassSlice(f, 6, 0, rest, 2, pol);
    PassSlice(f, 7, -1, rest, 2, pol);
    PassSlice(f, 8, 0, rest, 1, pol);
    assert f[0..] == f && f[9..] + rest == rest;
    IdlesAreUnits(f);
  }

  lemma IdlesAreUnits(f: seq<string>)
    requires |f| == 9 && Idle(f[0], 0) && Idle(f[1], 1) && Idle(f[2], 0) && Idle(f[3], 0) && Idle(f[4], -1)
    requires Idle(f[5], 1) && Idle(f[6], 0) && Idle(f[7], -1) && Idle(f[8], 0)
    ensures AllUnits(f)
  {
    hide Unit, CodeLine, HeredocTerminator, BraceNet;
    forall l | l in f ensures Unit(l) {
      var i :| 0 <= i < |f| && f[i] == l;
      assert i == 0 || i == 1 || i == 2 || i == 3 || i == 4 || i == 5 || i == 6 || i == 7 || i == 8;
    }
  }

  // ---- the block as the file holds it ----

  function StampLines(generation: nat): seq<string> {
    if generation > 0 then [GENERATION_PREFIX + Digits(generation)] else []
  }

  function HookLines(app: string, hook: Option<WebhookConfig>): seq<string> {
    if hook.None? then [] else FragmentLines(app, hook.value)
  }

  /** Stamp, address line, fragment, and the rest of the maintenance block. */
  function WrittenLines(generation: nat, address: string, app: string, hook: Option<WebhookConfig>,
                        rest: seq<string>): seq<string> {
    StampLines(generation) + [address] + HookLines(app, hook) + rest
  }

  lemma StampPrefix()
    ensures '\n' !in GENERATION_PREFIX && '`' !in GENERATION_PREFIX && GENERATION_PREFIX != "" &&
      GENERATION_PREFIX[0] == '#'
  {
  }

  lemma StampComments(generation: nat)
    ensures forall l :: l in StampLines(generation) ==>
      '\n' !in l && '`' !in l && l != "" && TrimSpace(l) != "" && TrimSpace(l)[0] == '#'
    ensures AllUnits(StampLines(generation))
  {
    hide Trim, OddBackticks, Digits, GENERATION_PREFIX;
    var l := GENERATION_PREFIX + Digits(generation);
    DigitsAreInert(generation);
    StampPrefix();
    assert l[0] == '#';
    TrimKeepsHead(l, IsSpace);
    assert '\n' !in l && '`' !in l by { InertConcatFree(GENERATION_PREFIX, Digits(generation)); }
    NoBackticks(l);
    OneLineUnit(l);
    assert forall x :: x in StampLines(generation) ==> x == l;
  }

  lemma InertConcatFree(a: string, b: string)
    requires '\n' !in a && '`' !in a && Inert(b)
    ensures '\n' !in a + b && '`' !in a + b
  {
  }

  /** Stamps are no part of the block to whoever looks for its opening line. */
  lemma OpeningAfterStamp(generation: nat, ls: seq<string>)
    requires OpeningLine(ls) == Some(0)
    ensures OpeningLine(StampLines(generation) + ls) == Some(|StampLines(generation)|)
  {
    hide TrimSpace, BraceNet, Digits;
    StampComments(generation);
    if generation > 0 {
      var stamp := StampLines(generation)[0];
      assert stamp in StampLines(generation);
      assert (StampLines(generation) + ls)[1..] == ls;
    } else {
      assert [] + ls == ls;
    }
  }

  /** A line that opens a site block at depth one, wherever it stands. */
  ghost predicate Opener(address: string) {
    && address != "" && '\n' !in address && Unit(address) && BraceNet(address) == 1
    && forall rest :: OpeningLine([address] + rest) == Some(0)
  }

  lemma HookPasses(app: string, hook: Option<WebhookConfig>, rest: seq<string>)
    requires ValidName(app) && (hook.Some? ==> PathReads(hook.value))
    ensures AllUnits(HookLines(app, hook)) &&
      PolicyFrom(HookLines(app, hook) + rest, 1, NO_POLICY) == PolicyFrom(rest, 1, NO_POLICY)
  {
    hide PolicyFrom, Unit, ValidName, PathReads, FragmentLines;
    if hook.Some? {
      FragmentPasses(app, hook.value, rest, NO_POLICY);
    } else {
      assert [] + rest == rest;
    }
  }

  /** The policy of the block as the file holds it is the one it was made from. */
  lemma WrittenReads(generation: nat, address: string, app: string, hook: Option<WebhookConfig>,
                     tls: string, spans: seq<seq<string>>, page: seq<string>)
    requires Opener(address) && ValidName(app) && (hook.Some? ==> PathReads(hook.value))
    requires TlsReadsBack(tls) && AllSpans(spans) && GoodPage(page)
    ensures ExtractPolicy(Unlines(WrittenLines(generation, address, app, hook, PolicyLines(tls, spans, page)))) ==
      Ok(SitePolicy(tls, Joined(spans)))
  {
    hide PolicyFrom, BraceNet, Unit, Unlines, LogicalFrom, LinesOf, OpeningLine, GoodPage, SpanLines, PolicyLines,
      TlsReadsBack, StampLines, HookLines, ValidName, PathReads, AllSpans;
    var rest := PolicyLines(tls, spans, page);
    PolicyLinesRead(tls, spans, page);
    StampComments(generation);
    HookPasses(app, hook, rest);
    StartsAt(generation, address, app, hook, rest);
    UnitsRead(WrittenLines(generation, address, app, hook, rest));
  }

  lemma StartsAt(generation: nat, address: string, app: string, hook: Option<WebhookConfig>, rest: seq<string>)
    requires Opener(address)
    ensures var ls := WrittenLines(generation, address, app, hook, rest);
      var i := |StampLines(generation)|;
      && OpeningLine(ls) == Some(i) && i < |ls| && ls[i] == address && ls[i + 1..] == HookLines(app, hook) + rest
  {
    hide OpeningLine, StampLines, HookLines, BraceNet, Unit;
    var stamp, more := StampLines(generation), HookLines(app, hook) + rest;
    assert WrittenLines(generation, address, app, hook, rest) == stamp + ([address] + more);
    OpeningAfterStamp(generation, [address] + more);
  }

  // ---- writing it: nothing is stripped, nothing collapses ----

  /** Text without a fragment of the app or a run of empty lines, and whose first
      line says something. */
  predicate Sturdy(text: string, app: string) {
    HookFree(LinesOf(text), app) && NoRuns(LinesOf(text)) && LinesOf(text)[0] != ""
  }

  lemma RunsMeet(a: seq<string>, b: seq<string>)
    requires NoRuns(a) && NoRuns(b) && (b != [] ==> b[0] != "")
    ensures NoRuns(a + b)
  {
    var c := a + b;
    forall i | 0 <= i < |c| - 1 ensures c[i] != "" || c[i + 1] != "" {
      if i + 1 < |a| {
        assert c[i] == a[i] && c[i + 1] == a[i + 1];
      } else if i >= |a| {
        assert c[i] == b[i - |a|] && c[i + 1] == b[i - |a| + 1];
      } else {
        assert c[i + 1] == b[0];
      }
    }
  }

  lemma SturdyConcat(a: string, b: string, app: string)
    requires Sturdy(a, app) && Sturdy(b, app)
    ensures Sturdy(a + "\n" + b, app)
  {
    hide OpensHook, LinesOf, NoRuns;
    LinesOfConcat(a, b);
    RunsMeet(LinesOf(a), LinesOf(b));
  }

  lemma SturdyLine(l: string, app: string)
    requires '\n' !in l && l != "" && !OpensHook(l, app)
    ensures Sturdy(l, app)
  {
    hide OpensHook;
    SplitLine(l, '\n');
  }

  lemma HookHasHash(l: string, app: string)
    requires ValidName(app) && (TrimSpace(l) == "" || TrimSpace(l)[0] != '#')
    ensures !OpensHook(l, app)
  {
    hide ValidName, TrimSpace;
    HookTrims(app);
  }

  lemma SturdyCode(l: string, app: string)
    requires ValidName(app) && '\n' !in l && '#' !in l && l != ""
    ensures Sturdy(l, app)
  {
    hide OpensHook, LinesOf, ValidName;
    var a, c := TrimParts(l, IsSpace);
    var t := TrimSpace(l);
    assert t != "" ==> t[0] == l[|a|];
    HookHasHash(l, app);
    SturdyLine(l, app);
  }

  lemma {:induction false} SturdyUnlines(ls: seq<string>, app: string)
    requires ls != [] && forall l :: l in ls ==> Sturdy(l, app)
    ensures Sturdy(Unlines(ls), app)
  {
    hide Sturdy, Unlines;
    assert ls == [ls[0]] + ls[1..];
    UnlinesCons(ls[0], ls[1..]);
    if |ls| > 1 {
      SturdyUnlines(ls[1..], app);
      SturdyConcat(ls[0], Unlines(ls[1..]), app);
    }
  }

  /** Spans that no write changes: no run of empty lines, no line that opens a
      fragment of the app. */
  predicate KeptAsIs(pol: SitePolicy, app: string) {
    forall a :: a in pol.access ==> HookFree(LinesOf(a), app) && NoRuns(LinesOf(a))
  }

  predicate PageKept(page: seq<string>, app: string) { HookFree(page, app) && NoRuns(page) }

  lemma SpanSpeaks(a: string)
    requires GoodSpan(a)
    ensures LinesOf(a)[0] != ""
  {
    hide Unlines, LinesOf, TrimSpace, CodeLine, BraceNet, HeredocTerminator, AccessLine, SpanEnd, Unit;
    var span :| SpanLines(span) && a == Unlines(span);
    AccessSpeaks(span[0]);
    FirstLineOfUnit(span[0]);
    assert span == [span[0]] + span[1..];
    UnlinesCons(span[0], span[1..]);
    if span[1..] != [] {
      LinesOfConcat(span[0], Unlines(span[1..]));
    }
  }

  lemma FirstLineOfUnit(l: string)
    requires Unit(l) && l != ""
    ensures LinesOf(l)[0] != ""
  {
    hide LinesOf, Unlines;
    RoutePieces.FirstLineSpeaks(l);
  }

  lemma AccessSpeaks(l: string)
    requires AccessLine(TrimSpace(Code(l)))
    ensures l != ""
  {
    EmptyIsNoTls();
    assert !AccessLine("");
  }

  lemma {:induction false} SpansAreSturdy(access: seq<string>, rest: string, app: string)
    requires Sturdy(rest, app)
    requires forall a :: a in access ==> GoodSpan(a) && HookFree(LinesOf(a), app) && NoRuns(LinesOf(a))
    ensures Sturdy(AccessSpans(access) + rest, app)
  {
    hide GoodSpan, LinesOf, OpensHook, NoRuns;
    if access == [] {
      assert AccessSpans(access) + rest == rest;
    } else {
      assert access[0] in access;
      SpansAreSturdy(access[1..], rest, app);
      SpanSpeaks(access[0]);
      SturdyConcat(access[0], AccessSpans(access[1..]) + rest, app);
      assert AccessSpans(access) + rest == access[0] + "\n" + (AccessSpans(access[1..]) + rest);
    }
  }

  lemma QuoteEndIsNoHook(l: string, app: string)
    requires ValidName(app)
    ensures !OpensHook(l + "`", app)
  {
    hide TrimSpace;
    EndsInQuote(l + "`");
    HookTrims(app);
    var t := HOOK_BEGIN + app;
    assert t[|t| - 1] == app[|app| - 1];
  }

  /** The body argument of a kept page is kept. */
  lemma PageIsSturdy(page: seq<string>, app: string)
    requires GoodPage(page) && PageKept(page, app) && ValidName(app)
    ensures Sturdy(BodyLine(page), app)
  {
    hide LinesOf, Unlines, HeredocTerminator, OpensHook, ValidName;
    BodyLineLines(page);
    BodyLinesAreLines(page);
    LinesOfUnlines(BodyLines(page));
    var ls := BodyLines(page);
    BodyFirst(page, app);
    forall l | l in ls ensures !OpensHook(l, app) {
      if l != ls[0] {
        var i :| 0 < i < |ls| && ls[i] == l;
        if i == |ls| - 1 {
          QuoteEndIsNoHook(page[|page| - 1], app);
        } else {
          assert l == page[i] && page[i] in page;
        }
      }
    }
    forall i | 0 <= i < |ls| - 1 ensures ls[i] != "" || ls[i + 1] != "" {
      if 0 < i < |ls| - 2 {
        assert ls[i] == page[i] && ls[i + 1] == page[i + 1];
      }
    }
  }

  lemma BodyFirst(page: seq<string>, app: string)
    requires GoodPage(page) && ValidName(app)
    ensures !OpensHook(BodyLines(page)[0], app) && BodyLines(page)[0] != ""
  {
    hide HeredocTerminator, ValidName, OpensHook;
    var more := if |page| == 1 then "`" + page[0] + "`" else "`" + page[0];
    var l := BodyLines(page)[0];
    var code := "body " + more;
    assert l == "\t\t" + code + "";
    TrimAround("\t\t", code, "", IsSpace);
    TrimKeepsHead(code, IsSpace);
    HookHasHash(l, app);
  }

  lemma TailIsSturdy(page: seq<string>, app: string)
    requires GoodPage(page) && PageKept(page, app) && ValidName(app)
    ensures Sturdy(Unlines(TailLines(page)), app)
  {
    hide Sturdy, BodyLine, Unlines, PageKept, GoodPage, ValidName;
    var t := TailLines(page);
    PageIsSturdy(page, app);
    SturdyCode(TYPE_HEADER + "\"" + TYPE_VALUE + "\"", app);
    SturdyCode(RETRY_HEADER + "\"" + RETRY_VALUE + "\"", app);
    SturdyCode("\trespond 503 {", app);
    SturdyCode("\t}", app);
    SturdyCode("}", app);
    forall l | l in t ensures Sturdy(l, app) {
      assert l in [t[0], t[1], t[2], t[3], t[4], t[5]];
    }
    SturdyUnlines(t, app);
  }

  /** A trimmed tls directive starts with its word. */
  lemma TlsIsSturdy(tls: string, app: string)
    requires TlsReadsBack(tls) && tls != "" && '\n' !in tls && TrimSpace(tls) == tls && ValidName(app)
    ensures Sturdy(tls, app)
  {
    hide CodeFrom, HeredocTerminator, BraceNet, TlsLine, Unit, ValidName, OpensHook;
    if tls[0] == '#' {
      CommentCode(tls);
      BlankLine(Code(tls));
      EmptyIsNoTls();
      assert false;
    }
    HookHasHash(tls, app);
    SturdyLine(tls, app);
  }

  lemma StampedIsSturdy(generation: nat, block: string, app: string)
    requires Sturdy(block, app) && ValidName(app)
    ensures Sturdy(Stamped(generation, block), app)
  {
    hide Sturdy, Digits, ValidName;
    if generation > 0 {
      var stamp := GENERATION_PREFIX + Digits(generation);
      DigitsAreDigits(generation);
      StampIsNoHook(stamp, app);
      SturdyLine(stamp, app);
      SturdyConcat(stamp, block, app);
    }
  }

  lemma StampIsNoHook(stamp: string, app: string)
    requires GENERATION_PREFIX <= stamp && ValidName(app)
    ensures !OpensHook(stamp, app)
  {
    hide Trim, ValidName;
    HookTrims(app);
    var a, c := TrimParts(stamp, IsSpace);
    var t := TrimSpace(stamp);
    Throughout(a, IsSpace);
    Throughout(c, IsSpace);
    assert stamp[0] == '#' && stamp[9] == 'G' && HOOK_BEGIN[9] == 'W';
    assert stamp == a + (t + c);
    assert a == [];
    assert (HOOK_BEGIN + app)[9] == 'W';
    assert stamp == t + c;
  }

  lemma AddressIsSturdy(address: string, app: string)
    requires Opener(address) && PlainText(address) && ValidName(app)
    ensures Sturdy(address, app)
  {
    hide BraceNet, Unit, OpeningLine, ValidName, Sturdy;
    SturdyCode(address, app);
  }

  lemma AddressLine(hosts: seq<string>)
    requires hosts != [] && forall h :: h in hosts ==> PlainHost(h)
    ensures Opener(JoinAddresses(hosts) + " {") && PlainText(JoinAddresses(hosts) + " {")
  {
    hide BraceNet, Unit, OpeningLine, JoinAddresses;
    forall rest ensures OpeningLine([JoinAddresses(hosts) + " {"] + rest) == Some(0) {
      AddressOpens(hosts, rest);
    }
    AddressOpens(hosts, []);
    forall h | h in hosts ensures Balanced(h) { assert PlainHost(h); }
    JoinedBraces(hosts);
  }

  /** What a policy must be for maintenance to carry it. */
  ghost predicate Carried(pol: SitePolicy, app: string) { GoodPolicy(pol) && SingleLineTls(pol) && KeptAsIs(pol, app) }

  ghost predicate Serving(hosts: seq<string>) { hosts != [] && forall h :: h in hosts ==> PlainHost(h) }

  lemma TrimmedReads(pol: SitePolicy)
    requires GoodPolicy(pol) && SingleLineTls(pol)
    ensures var tls := TrimSpace(pol.tls); TlsReadsBack(tls) && '\n' !in tls && TrimSpace(tls) == tls
  {
    hide TlsLine, Unit, HeredocTerminator, CodeFrom, Trim, BraceNet, GoodSpan;
    EmptyIsNoTls();
    if pol.tls != "" {
      TrimmedTls(pol.tls);
      var a, c := TrimParts(pol.tls, IsSpace);
      assert forall x :: x in TrimSpace(pol.tls) ==> x in pol.tls;
    }
  }

  lemma BlockIsSturdy(hosts: seq<string>, pol: SitePolicy, routable: string -> bool, page: seq<string>, app: string)
    requires Serving(hosts) && Carried(pol, app) && GoodPage(page) && PageKept(page, app) && ValidName(app)
    ensures Sturdy(MaintenanceBlock(hosts, pol, routable, page), app)
  {
    hide Sturdy, TrimSpace, SchemeHosts, JoinAddresses, AccessSpans, TailLines, Unlines, GoodPage, PageKept,
      ValidName, Opener, GoodSpan, PlainHost, HookFree, LinesOf, NoRuns, TlsReadsBack, SingleLineTls, PlainText;
    var tls := TrimSpace(pol.tls);
    TrimmedReads(pol);
    TailIsSturdy(page, app);
    var rest := AccessSpans(pol.access) + Unlines(TailLines(page));
    SpansAreSturdy(pol.access, Unlines(TailLines(page)), app);
    var after := if tls == "" then rest else tls + "\n" + rest;
    if tls != "" {
      TlsIsSturdy(tls, app);
      SturdyConcat(tls, rest, app);
    }
    SchemeHostsPlain(hosts, tls, routable);
    var head := JoinAddresses(SchemeHosts(hosts, tls, routable)) + " {";
    AddressLine(SchemeHosts(hosts, tls, routable));
    AddressIsSturdy(head, app);
    SturdyConcat(head, after, app);
    assert MaintenanceBlock(hosts, pol, routable, page) == head + "\n" + after;
  }

  // ---- renewing it ----

  lemma NothingCollapsed(text: string)
    requires NoRuns(LinesOf(text))
    ensures Collapse(text) == text
  {
    hide LinesOf, Squeeze;
    var ls := LinesOf(text);
    LinesOfText(text);
    SplitSqueeze(text, 0);
    var front := Front(ls);
    forall i | 0 <= i < |front| - 1 ensures front[i] != "" || front[i + 1] != "" {
      assert front[i] == ls[i] && front[i + 1] == ls[i + 1];
    }
    SqueezeNoRuns(front, 0);
    assert front + [Last(ls)] == ls;
    LinesOfText(Squeeze(text, 0));
  }

  lemma SturdyIsBare(block: string, app: string)
    requires Sturdy(block, app)
    ensures Strip(block, app) == block
  {
    hide LinesOf, NoRuns, StripLines, HookFree, Collapse;
    StripOfFree(block, app);
    NothingCollapsed(block);
  }

  /** Injecting puts the fragment under the address line. */
  lemma InjectedLines(generation: nat, address: string, app: string, cfg: WebhookConfig, rest: seq<string>)
    requires Opener(address) && rest != []
    ensures var block := Unlines(StampLines(generation) + [address] + rest);
      Inject(block, app, cfg) == Ok(Unlines(WrittenLines(generation, address, app, Some(cfg), rest)))
  {
    hide OpeningLine, StampLines, FragmentLines, BraceNet, Unit, LinesOf, Unlines;
    var stamp := StampLines(generation);
    var block := Unlines(stamp + [address] + rest);
    LinesOfHead(stamp, address, rest, generation);
    var physical := LinesOf(Unlines(rest));
    LinesOfText(Unlines(rest));
    OpeningAfterStamp(generation, [address] + physical);
    var ls := LinesOf(block);
    assert ls == stamp + [address] + physical == stamp + ([address] + physical);
    var i := |stamp|;
    assert ls[..i + 1] == stamp + [address] && ls[i + 1..] == physical;
    var head := stamp + [address] + FragmentLines(app, cfg);
    UnlinesBoth(head, rest);
    UnlinesBoth(head, physical);
  }

  lemma LinesOfHead(stamp: seq<string>, address: string, rest: seq<string>, generation: nat)
    requires stamp == StampLines(generation) && '\n' !in address && rest != []
    ensures LinesOf(Unlines(stamp + [address] + rest)) == stamp + [address] + LinesOf(Unlines(rest))
  {
    hide StampLines, LinesOf, Unlines;
    StampComments(generation);
    var head := stamp + [address];
    UnlinesBoth(head, rest);
    LinesOfConcat(Unlines(head), Unlines(rest));
    LinesOfUnlines(head);
  }

  /** The block's text by its lines. */
  lemma StampedText(generation: nat, hosts: seq<string>, pol: SitePolicy, routable: string -> bool, page: seq<string>,
                    spans: seq<seq<string>>)
    requires AllSpans(spans) && Joined(spans) == pol.access && GoodPage(page)
    ensures var tls := TrimSpace(pol.tls); var address := JoinAddresses(SchemeHosts(hosts, tls, routable)) + " {";
      Stamped(generation, MaintenanceBlock(hosts, pol, routable, page)) ==
        Unlines(StampLines(generation) + [address] + PolicyLines(tls, spans, page))
  {
    hide Unlines, SchemeHosts, JoinAddresses, TrimSpace, PolicyLines, MaintenanceBlock, AllSpans, GoodPage;
    var tls := TrimSpace(pol.tls);
    var address := JoinAddresses(SchemeHosts(hosts, tls, routable)) + " {";
    var rest := PolicyLines(tls, spans, page);
    BlockText(hosts, pol, routable, page, spans);
    if generation > 0 {
      UnlinesCons(StampLines(generation)[0], [address] + rest);
      assert StampLines(generation) + [address] + rest == [StampLines(generation)[0]] + ([address] + rest);
    } else {
      assert [] + [address] + rest == [address] + rest;
    }
  }

  /** What the second half of the edit makes of the block. */
  lemma RenewedText(generation: nat, hosts: seq<string>, pol: SitePolicy, routable: string -> bool, page: seq<string>,
                    app: string, hook: Option<WebhookConfig>, spans: seq<seq<string>>)
    requires Serving(hosts) && Carried(pol, app) && GoodPage(page) && PageKept(page, app) && ValidName(app)
    requires AllSpans(spans) && Joined(spans) == pol.access
    ensures var tls := TrimSpace(pol.tls); var address := JoinAddresses(SchemeHosts(hosts, tls, routable)) + " {";
      && Opener(address)
      && Renew(Stamped(generation, MaintenanceBlock(hosts, pol, routable, page)), app, hook) ==
           Ok(Unlines(WrittenLines(generation, address, app, hook, PolicyLines(tls, spans, page))))
  {
    hide Unlines, SchemeHosts, JoinAddresses, TrimSpace, MaintenanceBlock, AllSpans, GoodPage, PageKept, ValidName,
      Carried, PlainHost, Opener, Sturdy, Strip, Inject, StampLines, Stamped;
    var tls := TrimSpace(pol.tls);
    var address := JoinAddresses(SchemeHosts(hosts, tls, routable)) + " {";
    var rest := PolicyLines(tls, spans, page);
    StampedText(generation, hosts, pol, routable, page, spans);
    var block := Stamped(generation, MaintenanceBlock(hosts, pol, routable, page));
    BlockIsSturdy(hosts, pol, routable, page, app);
    StampedIsSturdy(generation, MaintenanceBlock(hosts, pol, routable, page), app);
    SturdyIsBare(block, app);
    SchemeHostsPlain(hosts, tls, routable);
    AddressLine(SchemeHosts(hosts, tls, routable));
    PolicyLinesSome(tls, spans, page);
    if hook.Some? {
      InjectedLines(generation, address, app, hook.value, rest);
    } else {
      assert StampLines(generation) + [address] + [] + rest == StampLines(generation) + [address] + rest;
    }
  }

  lemma PolicyLinesSome(tls: string, spans: seq<seq<string>>, page: seq<string>)
    ensures PolicyLines(tls, spans, page) != [] && Last(PolicyLines(tls, spans, page)) == "}"
  {
  }

  // ---- reading it back ----

  lemma BareLines(ls: seq<string>)
    requires ls != [] && ls[0] != "" && '\n' !in ls[0] && Last(ls) != "" && '\n' !in Last(ls)
    ensures Unlines(ls) != "" && Bare(Unlines(ls)) == Unlines(ls)
  {
    hide Unlines, Trim;
    var s := Unlines(ls);
    assert ls == [ls[0]] + ls[1..];
    UnlinesCons(ls[0], ls[1..]);
    assert s[0] == ls[0][0] && ls[0][0] in ls[0];
    var last := Last(ls);
    if |ls| > 1 {
      assert ls == Front(ls) + [last];
      UnlinesBoth(Front(ls), [last]);
      UnlinesOne(last);
    }
    assert last[|last| - 1] in last;
    assert s[|s| - 1] == last[|last| - 1];
    TrimTrimmed(s, IsNewline);
  }

  lemma HeadLine(generation: nat, address: string, rest: seq<string>)
    requires Opener(address) && rest != [] && Last(rest) == "}"
    ensures var ls := StampLines(generation) + [address] + rest; Bare(Unlines(ls)) == Unlines(ls) && Unlines(ls) != ""
  {
    hide OpeningLine, BraceNet, Unit, Unlines, Trim, StampLines;
    StampComments(generation);
    var ls := StampLines(generation) + [address] + rest;
    assert ls[0] in StampLines(generation) || ls[0] == address;
    BareLines(ls);
  }

  /** What the file then holds for the app. */
  lemma OnTextWrites(prev: string, app: string, e: BlockEdit, text: string, renewed: string)
    requires WellFormed(LinesOf(prev)) && GoodEdit(e) && AdoptionSpares(prev, e.app, e.hosts) && e.app == app
    requires ApplyManaged(prev, e) == Ok(text) && e.block != "" && Bare(e.block) == e.block
    requires Renew(e.block, app, e.hook) == Ok(renewed) && Bare(renewed) == renewed
    ensures ExtractBlock(text, app) == renewed
  {
    hide WellFormed, RegionsOf, LinesOf, ValidName, GoodConfig, NoMarkers, AdoptionSpares, ApplyManaged, Renew, Trim,
      MeantBy, LegacyGoes, NearRegions, BodyOf, Unlines, ExtractBlock;
    ManagedEditKeeps(prev, e);
    ExtractReadsRegion(text, app);
    WrittenBlockReadsBack(renewed);
  }

  /** The policy an enabling carries: none, if the app has no block. */
  function LivePolicy(prev: string, app: string): Result<SitePolicy, PolicyError> {
    var cur := ExtractBlock(prev, app);
    if cur == "" then Ok(NO_POLICY) else ExtractPolicy(cur)
  }

  function LiveGeneration(prev: string, app: string): nat {
    var cur := ExtractBlock(prev, app);
    if cur == "" then 0 else GenerationOf(LinesOf(cur))
  }

  lemma OnBlockIs(prev: string, app: string, hosts: seq<string>, routable: string -> bool, page: seq<string>)
    requires LivePolicy(prev, app).Ok?
    ensures OnBlock(prev, app, hosts, routable, page) ==
      Ok(Stamped(LiveGeneration(prev, app), MaintenanceBlock(hosts, LivePolicy(prev, app).value, routable, page)))
  {
    hide ExtractBlock, ExtractPolicy, MaintenanceBlock, GenerationOf, LinesOf;
  }

  lemma LiveIsGood(prev: string, app: string)
    requires LivePolicy(prev, app).Ok?
    ensures GoodPolicy(LivePolicy(prev, app).value)
  {
    hide ExtractBlock, ExtractPolicy, GoodPolicy;
    NoPolicyIsGood();
    if ExtractBlock(prev, app) != "" {
      ExtractedIsGood(ExtractBlock(prev, app));
    }
  }

  lemma SpansFor(pol: SitePolicy) returns (spans: seq<seq<string>>)
    requires GoodPolicy(pol)
    ensures AllSpans(spans) && Joined(spans) == pol.access
  {
    hide GoodSpan;
    spans := SpansOf(pol.access);
  }

  lemma WrittenIsBare(generation: nat, address: string, app: string, hook: Option<WebhookConfig>, rest: seq<string>)
    requires Opener(address) && rest != [] && Last(rest) == "}"
    ensures var text := Unlines(WrittenLines(generation, address, app, hook, rest)); text != "" && Bare(text) == text
  {
    hide Opener, Unlines, Trim, StampLines, HookLines;
    var more := HookLines(app, hook) + rest;
    HeadLine(generation, address, more);
    assert StampLines(generation) + [address] + more == WrittenLines(generation, address, app, hook, rest);
  }

  // ---- paths ----

  /** The path the client installs is one. */
  lemma InstalledPathReads(app: string, port: nat)
    requires ValidName(app)
    ensures PathReads(WebhookConfig("/teploy-webhook/" + app, port))
  {
    hide Inert, Idle;
    NameIsInert(app);
    PathWord();
    InstalledWord();
    InertConcat("/teploy-webhook/", app);
    InertConcat("\t\tpath ", "/teploy-webhook/" + app);
    InertIdles("\t\tpath " + ("/teploy-webhook/" + app));
  }

  lemma PathWord()
    ensures Inert("\t\tpath ")
  {
  }

  lemma InstalledWord()
    ensures Inert("/teploy-webhook/")
  {
  }

  /** A path that closes braces it does not open. */
  predicate PathCloses(cfg: WebhookConfig) {
    var l := "\t\tpath " + cfg.path;
    Reads(l) && Net(l) < 0
  }

  /** A path that opens braces it does not close. */
  predicate PathOpens(cfg: WebhookConfig) {
    var l := "\t\tpath " + cfg.path;
    Reads(l) && Net(l) > 0
  }

  lemma Ends(l: string, net: int, rest: seq<string>, depth: int, pol: SitePolicy)
    requires Idle(l, net) && depth + net <= 0 && (depth == 1 ==> NoDirective(TrimSpace(Code(l))))
    ensures PolicyFrom([l] + rest, depth, pol) == Ok(pol)
  {
    hide BraceNet, HeredocTerminator, CodeFrom, TlsLine, AccessLine, TrimSpace, Unlines, SpanEnd, Unit;
  }

  lemma EndSlice(f: seq<string>, i: nat, net: int, rest: seq<string>, depth: int, pol: SitePolicy)
    requires i < |f| && Idle(f[i], net) && depth + net <= 0 && (depth == 1 ==> NoDirective(TrimSpace(Code(f[i]))))
    ensures PolicyFrom(f[i..] + rest, depth, pol) == Ok(pol)
  {
    hide Idle, NoDirective, PolicyFrom, TrimSpace;
    Ends(f[i], net, f[i + 1..] + rest, depth, pol);
    assert f[i..] + rest == [f[i]] + (f[i + 1..] + rest);
  }

  /** Up to the path, and the brace after it. */
  lemma FragmentStarts(app: string, cfg: WebhookConfig)
    requires ValidName(app)
    ensures var f := FragmentLines(app, cfg);
      && |f| == 9 && Idle(f[0], 0) && Idle(f[1], 1) && Idle(f[2], 0) && f[3] == "\t\tpath " + cfg.path && Idle(f[4], -1)
      && NoDirective(TrimSpace(Code(f[0]))) && NoDirective(TrimSpace(Code(f[1]))) && NoDirective(TrimSpace(Code(f[4])))
  {
    hide ValidName, TrimSpace, NoDirective, Idle, Inert, Digits, CodeLine;
    NameIsInert(app);
    MatcherWord();
    MethodWord();
    HookComment(HOOK_BEGIN, app);
    OpensBrace("\t@teploy_hook_", app);
    InertIdles("\t\tmethod POST");
    BraceIdles();
    BraceIsNeutral();
  }

  /** After that brace. */
  lemma FragmentEnds(app: string, cfg: WebhookConfig)
    requires ValidName(app)
    ensures var f := FragmentLines(app, cfg);
      |f| == 9 && Idle(f[5], 1) && Idle(f[6], 0) && Idle(f[7], -1) && Idle(f[8], 0)
  {
    hide ValidName, TrimSpace, NoDirective, Idle, Inert, Digits, CodeLine;
    NameIsInert(app);
    DigitsAreInert(cfg.port);
    HandleWord();
    ProxyWords();
    HookComment(HOOK_END, app);
    OpensBrace("\thandle @teploy_hook_", app);
    InertConcat(HOOK_PROXY, Digits(cfg.port));
    InertIdles(HOOK_PROXY + Digits(cfg.port));
    BraceIdles();
  }

  lemma FragmentCloses(app: string, cfg: WebhookConfig, rest: seq<string>, pol: SitePolicy)
    requires ValidName(app) && PathCloses(cfg)
    ensures PolicyFrom(FragmentLines(app, cfg) + rest, 1, pol) == Ok(pol)
  {
    hide ValidName, NoDirective, PolicyFrom, TrimSpace, FragmentLines, CodeLine, Reads, BraceNet;
    FragmentStarts(app, cfg);
    var f := FragmentLines(app, cfg);
    var net := Net(f[3]);
    PassSlice(f, 0, 0, rest, 1, pol);
    PassSlice(f, 1, 1, rest, 1, pol);
    PassSlice(f, 2, 0, rest, 2, pol);
    if net == -1 {
      PassSlice(f, 3, -1, rest, 2, pol);
      EndSlice(f, 4, -1, rest, 1, pol);
    } else {
      EndSlice(f, 3, net, rest, 2, pol);
    }
    assert f[0..] == f;
  }

  /** A fragment whose path does that ends the block for whoever reads its policy. */
  lemma WrittenCloses(generation: nat, address: string, app: string, cfg: WebhookConfig, rest: seq<string>)
    requires Opener(address) && ValidName(app) && PathCloses(cfg) && rest != [] && AllUnits(rest)
    ensures ExtractPolicy(Unlines(WrittenLines(generation, address, app, Some(cfg), rest))) == Ok(NO_POLICY)
  {
    hide PolicyFrom, BraceNet, Unit, Unlines, LogicalFrom, LinesOf, OpeningLine, StampLines, FragmentLines, ValidName,
      Reads, CodeLine;
    StampComments(generation);
    FragmentCloses(app, cfg, rest, NO_POLICY);
    FragmentUnits(app, cfg);
    StartsAt(generation, address, app, Some(cfg), rest);
    UnitsRead(WrittenLines(generation, address, app, Some(cfg), rest));
  }

  /** A path that opens braces leaves the rest of the block within them. */
  lemma FragmentOpens(app: string, cfg: WebhookConfig, rest: seq<string>, pol: SitePolicy)
    requires ValidName(app) && PathOpens(cfg)
    ensures PolicyFrom(FragmentLines(app, cfg) + rest, 1, pol) ==
      PolicyFrom(rest, 1 + Net("\t\tpath " + cfg.path), pol)
  {
    hide ValidName, NoDirective, PolicyFrom, TrimSpace, FragmentLines, CodeLine, Reads, BraceNet;
    FragmentStarts(app, cfg);
    FragmentEnds(app, cfg);
    var f := FragmentLines(app, cfg);
    var net := Net(f[3]);
    PassSlice(f, 0, 0, rest, 1, pol);
    PassSlice(f, 1, 1, rest, 1, pol);
    PassSlice(f, 2, 0, rest, 2, pol);
    PassSlice(f, 3, net, rest, 2, pol);
    PassSlice(f, 4, -1, rest, 2 + net, pol);
    PassSlice(f, 5, 1, rest, 1 + net, pol);
    PassSlice(f, 6, 0, rest, 2 + net, pol);
    PassSlice(f, 7, -1, rest, 2 + net, pol);
    PassSlice(f, 8, 0, rest, 1 + net, pol);
    assert f[0..] == f && f[9..] + rest == rest;
  }

  /** And no policy is read back from within them. */
  lemma WrittenOpens(generation: nat, address: string, app: string, cfg: WebhookConfig,
                     tls: string, spans: seq<seq<string>>, page: seq<string>)
    requires Opener(address) && ValidName(app) && PathOpens(cfg)
    requires TlsReadsBack(tls) && AllSpans(spans) && GoodPage(page)
    ensures ExtractPolicy(Unlines(WrittenLines(generation, address, app, Some(cfg), PolicyLines(tls, spans, page)))) !=
      Ok(SitePolicy(tls, Joined(spans)))
  {
    hide PolicyFrom, BraceNet, Unit, Unlines, LogicalFrom, LinesOf, OpeningLine, GoodPage, SpanLines, PolicyLines,
      TlsReadsBack, StampLines, FragmentLines, ValidName, AllSpans, Reads, CodeLine;
    var rest := PolicyLines(tls, spans, page);
    PolicyLinesRead(tls, spans, page);
    StampComments(generation);
    FragmentOpens(app, cfg, rest, NO_POLICY);
    OpenLosesPolicy(tls, spans, page, 1 + Net("\t\tpath " + cfg.path));
    FragmentUnits(app, cfg);
    StartsAt(generation, address, app, Some(cfg), rest);
    UnitsRead(WrittenLines(generation, address, app, Some(cfg), rest));
  }

  lemma FragmentUnits(app: string, cfg: WebhookConfig)
    requires ValidName(app) && Reads("\t\tpath " + cfg.path)
    ensures AllUnits(FragmentLines(app, cfg))
  {
    hide ValidName, NoDirective, TrimSpace, Inert, Digits, CodeLine, Unit, HeredocTerminator, BraceNet;
    NameIsInert(app);
    DigitsAreInert(cfg.port);
    MatcherWord();
    HandleWord();
    MethodWord();
    ProxyWords();
    HookComment(HOOK_BEGIN, app);
    HookComment(HOOK_END, app);
    OpensBrace("\t@teploy_hook_", app);
    OpensBrace("\thandle @teploy_hook_", app);
    InertIdles("\t\tmethod POST");
    InertConcat(HOOK_PROXY, Digits(cfg.port));
    InertIdles(HOOK_PROXY + Digits(cfg.port));
    BraceIdles();
  }

  // ---- enabling ----

  /** Everything an enabling needs: a valid app, a page of plain text, and hosts the
      client accepts. */
  ghost predicate Enabling(app: string, hosts: seq<string>, hook: Option<WebhookConfig>, page: seq<string>) {
    && Sane(app, hook, page) && PageKept(page, app)
    && Serving(hosts) && forall h :: h in hosts ==> OneLineHost(h)
  }

  /** A policy an enabling of the app finds in the file. */
  ghost predicate Finds(prev: string, app: string, pol: SitePolicy) {
    LivePolicy(prev, app) == Ok(pol) && SingleLineTls(pol) && KeptAsIs(pol, app)
  }

  /** What the app's region holds after an enabling. */
  lemma EnablingWrites(prev: string, app: string, hosts: seq<string>, hook: Option<WebhookConfig>,
                       routable: string -> bool, page: seq<string>, pol: SitePolicy)
                         returns (generation: nat, address: string, spans: seq<seq<string>>)
    requires WellFormed(LinesOf(prev)) && Enabling(app, hosts, hook, page) && AdoptionSpares(prev, app, hosts)
    requires Finds(prev, app, pol)
    ensures OnText(prev, app, hosts, hook, routable, page).Ok? && generation == LiveGeneration(prev, app)
    ensures address == JoinAddresses(SchemeHosts(hosts, TrimSpace(pol.tls), routable)) + " {"
    ensures Opener(address) && AllSpans(spans) && Joined(spans) == pol.access && TlsReadsBack(TrimSpace(pol.tls))
    ensures var now := ExtractBlock(OnText(prev, app, hosts, hook, routable, page).value, app);
      now != "" &&
        now == Unlines(WrittenLines(generation, address, app, hook, PolicyLines(TrimSpace(pol.tls), spans, page)))
  {
    hide WellFormed, LinesOf, ValidName, GoodConfig, NoMarkers, AdoptionSpares, ApplyManaged, Renew, Trim, Unlines,
      ExtractBlock, LivePolicy, GoodPage, PageKept, OneLineHost, PlainHost, SingleLineTls, KeptAsIs, Opener,
      GoodPolicy, MaintenanceBlock, Stamped, WrittenLines, AllSpans, TlsReadsBack, GoodSpan, OnBlock, StampLines,
      PolicyLines, LiveGeneration;
    generation := LiveGeneration(prev, app);
    LiveIsGood(prev, app);
    OnBlockIs(prev, app, hosts, routable, page);
    OnBlockIsUnmarked(prev, app, hosts, routable, page);
    spans := SpansFor(pol);
    var tls := TrimSpace(pol.tls);
    address := JoinAddresses(SchemeHosts(hosts, tls, routable)) + " {";
    TrimmedReads(pol);
    RenewedText(generation, hosts, pol, routable, page, app, hook, spans);
    StampedText(generation, hosts, pol, routable, page, spans);
    PolicyLinesSome(tls, spans, page);
    HeadLine(generation, address, PolicyLines(tls, spans, page));
    WrittenIsBare(generation, address, app, hook, PolicyLines(tls, spans, page));
    var block := OnBlock(prev, app, hosts, routable, page).value;
    var renewed := Renew(block, app, hook).value;
    ManagedEditSucceedsIff(prev, BlockEdit(app, hosts, block, hook));
    RenewsIff(block, app, hook);
    OnTextWrites(prev, app, BlockEdit(app, hosts, block, hook), OnText(prev, app, hosts, hook, routable, page).value,
      renewed);
  }

  /** The answer every request gets during maintenance. */
  function Answer503(page: seq<string>): string {
    "\trespond 503 {\n" + "\t\tbody `" + Unlines(page) + "`\n" + "\t}\n" + "}"
  }

  lemma TailAnswers(page: seq<string>)
    ensures |TailLines(page)| == 6 && Unlines(TailLines(page)[2..]) == Answer503(page)
  {
    hide Unlines;
    UnlinesOne("}");
    UnlinesCons("\t}", ["}"]);
    UnlinesCons(BodyLine(page), ["\t}", "}"]);
    UnlinesCons("\trespond 503 {", [BodyLine(page), "\t}", "}"]);
    assert ["\t}"] + ["}"] == ["\t}", "}"];
    assert [BodyLine(page)] + ["\t}", "}"] == [BodyLine(page), "\t}", "}"];
    assert TailLines(page)[2..] == ["\trespond 503 {"] + [BodyLine(page), "\t}", "}"];
  }

  lemma WrittenText(generation: nat, address: string, app: string, hook: Option<WebhookConfig>, tls: string,
                    spans: seq<seq<string>>, page: seq<string>) returns (middle: string)
    ensures Unlines(WrittenLines(generation, address, app, hook, PolicyLines(tls, spans, page))) ==
      Stamped(generation, address + "\n" + middle + Answer503(page))
  {
    hide Unlines, HookLines, Flat, TailLines, Digits, GENERATION_PREFIX, Answer503;
    TailAnswers(page);
    var first, last := TailLines(page)[..2], TailLines(page)[2..];
    var before := HookLines(app, hook) + (if tls == "" then [] else [tls]) + Flat(spans) + first;
    assert TailLines(page) == first + last && first != [];
    assert HookLines(app, hook) + PolicyLines(tls, spans, page) == before + last;
    assert WrittenLines(generation, address, app, hook, PolicyLines(tls, spans, page)) ==
      StampLines(generation) + ([address] + (before + last));
    hide PolicyLines, WrittenLines;
    UnlinesBoth(before, last);
    middle := Unlines(before) + "\n";
    UnlinesCons(address, before + last);
    StampedLines(generation, [address] + (before + last));
  }

  lemma StampedLines(generation: nat, block: seq<string>)
    requires block != []
    ensures Unlines(StampLines(generation) + block) == Stamped(generation, Unlines(block))
  {
    hide Unlines, Digits, GENERATION_PREFIX;
    if generation > 0 {
      UnlinesCons(GENERATION_PREFIX + Digits(generation), block);
    } else {
      assert [] + block == block;
    }
  }

  /** An enabling goes through, and what is then live is the stamp there was, the
      hosts the app was asked to be put into maintenance for, and the answer 503
      with the page. */
  lemma EnablingServes(prev: string, app: string, hosts: seq<string>, hook: Option<WebhookConfig>,
                       routable: string -> bool, page: seq<string>, pol: SitePolicy) returns (middle: string)
    requires WellFormed(LinesOf(prev)) && Enabling(app, hosts, hook, page) && AdoptionSpares(prev, app, hosts)
    requires Finds(prev, app, pol)
    ensures OnText(prev, app, hosts, hook, routable, page).Ok?
    ensures ExtractBlock(OnText(prev, app, hosts, hook, routable, page).value, app) ==
      Stamped(LiveGeneration(prev, app), JoinAddresses(SchemeHosts(hosts, TrimSpace(pol.tls), routable)) + " {" + "\n" +
        middle + Answer503(page))
  {
    hide WellFormed, LinesOf, AdoptionSpares, TrimSpace, Unlines, ExtractBlock, Finds, OnText, GoodPage, PageKept,
      Serving, OneLineHost, Opener, AllSpans, TlsReadsBack, PolicyLines, Enabling, SchemeHosts, WrittenLines,
      JoinAddresses, LiveGeneration, Stamped, Answer503;
    var generation, address, spans := EnablingWrites(prev, app, hosts, hook, routable, page, pol);
    middle := WrittenText(generation, address, app, hook, TrimSpace(pol.tls), spans, page);
  }

  lemma LiveGenerationFits(prev: string, app: string)
    ensures LiveGeneration(prev, app) < 0x1_0000_0000_0000_0000
  {
    hide ExtractBlock, LinesOf;
    GenerationFits(LinesOf(ExtractBlock(prev, app)));
  }

  /** A stamped route keeps its generation during maintenance. */
  lemma EnablingKeepsGeneration(prev: string, app: string, hosts: seq<string>, hook: Option<WebhookConfig>,
                                routable: string -> bool, page: seq<string>, pol: SitePolicy)
    requires WellFormed(LinesOf(prev)) && Enabling(app, hosts, hook, page) && AdoptionSpares(prev, app, hosts)
    requires Finds(prev, app, pol) && GenerationOf(LinesOf(ExtractBlock(prev, app))) > 0
    ensures OnText(prev, app, hosts, hook, routable, page).Ok?
    ensures GenerationOf(LinesOf(ExtractBlock(OnText(prev, app, hosts, hook, routable, page).value, app))) ==
      GenerationOf(LinesOf(ExtractBlock(prev, app)))
  {
    hide WellFormed, LinesOf, AdoptionSpares, TrimSpace, ExtractBlock, Finds, OnText, Enabling, SchemeHosts,
      JoinAddresses, Answer503, Digits, GenerationOf;
    var generation := GenerationOf(LinesOf(ExtractBlock(prev, app)));
    NoGeneration();
    LiveGenerationFits(prev, app);
    var middle := EnablingServes(prev, app, hosts, hook, routable, page, pol);
    GenerationReads(generation, JoinAddresses(SchemeHosts(hosts, TrimSpace(pol.tls), routable)) + " {" + "\n" + middle +
      Answer503(page));
  }

  lemma NoGeneration()
    ensures GenerationOf(LinesOf("")) == 0
  {
    SplitEmpty();
    assert !(GENERATION_PREFIX <= TrimSpace("")) by { assert TrimSpace("") == ""; }
  }

  lemma {:induction false} SchemeHostsAre(hosts: seq<string>, tls: string, routable: string -> bool)
    ensures var r := SchemeHosts(hosts, tls, routable);
      |r| == |hosts| && forall i :: 0 <= i < |hosts| ==>
        r[i] == if tls == "" && !routable(hosts[i]) then "http://" + hosts[i] else hosts[i]
  {
    if hosts != [] {
      SchemeHostsAre(hosts[1..], tls, routable);
    }
  }

  /** Maintenance keeps HTTPS and the access gate in the file itself: what the app's
      region then holds, stamped, with the fragment injected, carries the same tls
      directive, but for white space around it, and the same access spans. */
  lemma EnablingKeepsPolicy(prev: string, app: string, hosts: seq<string>, hook: Option<WebhookConfig>,
                            routable: string -> bool, page: seq<string>, pol: SitePolicy)
    requires WellFormed(LinesOf(prev)) && Enabling(app, hosts, hook, page) && AdoptionSpares(prev, app, hosts)
    requires Finds(prev, app, pol) && (hook.Some? ==> PathReads(hook.value))
    ensures OnText(prev, app, hosts, hook, routable, page).Ok?
    ensures var now := ExtractBlock(OnText(prev, app, hosts, hook, routable, page).value, app);
      now != "" && ExtractPolicy(now) == Ok(SitePolicy(TrimSpace(pol.tls), pol.access))
  {
    hide WellFormed, LinesOf, ValidName, GoodConfig, NoMarkers, AdoptionSpares, TrimSpace, Unlines, ExtractBlock,
      ExtractPolicy, Finds, OnText, GoodPage, PageKept, PathReads, Serving, OneLineHost, Opener, WrittenLines,
      AllSpans, TlsReadsBack, PolicyLines;
    var generation, address, spans := EnablingWrites(prev, app, hosts, hook, routable, page, pol);
    WrittenReads(generation, address, app, hook, TrimSpace(pol.tls), spans, page);
  }

  /** With a persisted path that is read on its own line, the policy is kept exactly
      when the path's braces are balanced, or it closes some and there was none to
      keep. Otherwise the next enabling finds another policy in the file, or none
      that it can read. */
  lemma EnablingKeepsPolicyIff(prev: string, app: string, hosts: seq<string>, cfg: WebhookConfig,
                               routable: string -> bool, page: seq<string>, pol: SitePolicy)
    requires WellFormed(LinesOf(prev)) && Enabling(app, hosts, Some(cfg), page) && AdoptionSpares(prev, app, hosts)
    requires Finds(prev, app, pol) && Reads("\t\tpath " + cfg.path)
    ensures OnText(prev, app, hosts, Some(cfg), routable, page).Ok?
    ensures var now := ExtractBlock(OnText(prev, app, hosts, Some(cfg), routable, page).value, app);
      var kept := SitePolicy(TrimSpace(pol.tls), pol.access);
      var net := Net("\t\tpath " + cfg.path);
      ExtractPolicy(now) == Ok(kept) <==> net == 0 || (net < 0 && kept == NO_POLICY)
  {
    hide WellFormed, LinesOf, ValidName, GoodConfig, NoMarkers, AdoptionSpares, TrimSpace, Unlines, ExtractBlock,
      ExtractPolicy, Finds, OnText, GoodPage, PageKept, Serving, OneLineHost, Opener, WrittenLines, AllSpans,
      TlsReadsBack, PolicyLines, Reads, BraceNet, CodeLine, NO_POLICY;
    var generation, address, spans := EnablingWrites(prev, app, hosts, Some(cfg), routable, page, pol);
    var tls := TrimSpace(pol.tls);
    if Net("\t\tpath " + cfg.path) == 0 {
      WrittenReads(generation, address, app, Some(cfg), tls, spans, page);
    } else if Net("\t\tpath " + cfg.path) > 0 {
      WrittenOpens(generation, address, app, cfg, tls, spans, page);
    } else {
      PolicyLinesRead(tls, spans, page);
      WrittenCloses(generation, address, app, cfg, PolicyLines(tls, spans, page));
    }
  }
}
