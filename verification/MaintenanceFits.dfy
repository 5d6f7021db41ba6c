/** The maintenance block fits a file of regions and top-level blocks, whatever its
    stamp (internal/caddy/caddy.go, routes.go, webhook.go). */
module MaintenanceFits {
  import opened Wrappers
  import opened Lines
  import opened Text
  import opened TextLines
  import opened Regions
  import opened RegionLaws
  import opened RegionEdit
  import opened RouteLex
  import opened Routes
  import opened RouteAddress
  import opened RouteSpaces
  import opened RoutePieces
  import opened RouteItems
  import opened Adoption
  import opened AdoptionExact
  import opened Render
  import opened Webhook
  import opened FileItems
  import opened FileEdits
  import opened PlainFiles
  import opened CaddyFile
  import opened CaddyRuns
  import opened SitePolicies
  import opened MaintenancePolicy
  import opened Maintenance
  import opened MaintenanceRuns
  import opened PolicyKept

  // ---- lines that may stand in a region ----

  predicate Fair(l: string) { FreeLine(l) && Coded(l) }

  predicate AllFair(ls: seq<string>) { forall l :: l in ls ==> Fair(l) }

  /** A block of fair lines is a body as files hold them. */
  lemma TightText(w: seq<string>)
    requires w != [] && AllFair(w) && Last(w) != ""
    ensures TightBody(BodyOf(Unlines(w))) && LogicalLines(BodyOf(Unlines(w))) == w
    ensures LogicalLines(LinesOf(Unlines(w))) == w && NoPrefixes(LinesOf(Unlines(w)))
  {
    hide FreeLine, Coded, Unlines, LinesOf, LogicalFrom, Physical, Frees, MarkerPrefixed, OpenAfter, TrimRightLines;
    assert AllFree(w);
    FairUnits(w);
    UnitsRead(w);
    LinesOfText(Unlines(w));
    var ls := LinesOf(Unlines(w));
    LogicalPhysical(ls, false, []);
    assert [] + ls == ls;
    FreesMerge(w);
    LastFree(w);
    SpokenEnd(ls);
    forall l | l in ls ensures !MarkerPrefixed(l) {
      FreeHasNoPrefix(w, l);
    }
  }

  lemma FairUnits(w: seq<string>)
    requires AllFair(w)
    ensures AllUnits(w)
  {
    hide Coded;
    forall l | l in w ensures Unit(l) {
      assert Fair(l);
      FreeIsUnit(l);
    }
  }

  lemma FairConcat(a: seq<string>, b: seq<string>)
    requires AllFair(a) && AllFair(b)
    ensures AllFair(a + b)
  {
    hide Fair;
  }

  lemma FairLine(l: string)
    requires Reads(l) && '\n' !in l && (TrimSpace(l) == "" || TrimSpace(l)[0] != '#')
    ensures Fair(l)
  {
    hide CodeLine, HeredocTerminator, TrimSpace, OddBackticks, FreeLine;
    OneLineUnit(l);
    OneLineIsFree(l);
  }

  /** A comment that says nothing of regions. */
  lemma FairComment(l: string)
    requires '\n' !in l && '`' !in l && TrimSpace(l) != "" && TrimSpace(l)[0] == '#' && !MarkerPrefixed(l)
    ensures Fair(l) && Opened(l) == []
  {
    hide CodeFrom, TrimSpace, OddBackticks, MarkerPrefixed, HeredocTerminator;
    CommentCode(l);
    BlankLine(Code(l));
    NoBackticks(l);
    OneLineUnit(l);
    SqueezeOneLine(l);
  }

  lemma OtherMark(l: string, t: string)
    requires TrimSpace(l) == t && |t| > 9 && t[9] != 'B' && t[9] != 'E'
    ensures !MarkerPrefixed(l)
  {
    hide TrimSpace;
    assert BEGIN_PREFIX[9] == 'B' && END_PREFIX[9] == 'E';
  }

  lemma StampIsFair(generation: nat)
    ensures AllFair(StampLines(generation)) && forall l :: l in StampLines(generation) ==> Opened(l) == []
  {
    hide Trim, Digits, Opened, Fair;
    StampComments(generation);
    forall l | l in StampLines(generation) ensures Fair(l) && Opened(l) == [] {
      StampTrims(l);
      OtherMark(l, TrimSpace(l));
      FairComment(l);
    }
  }

  lemma StampTrims(l: string)
    requires GENERATION_PREFIX <= l && exists d: nat :: l == GENERATION_PREFIX + Digits(d)
    ensures |TrimSpace(l)| > 9 && TrimSpace(l)[9] == 'G'
  {
    hide Trim, Digits;
    var d: nat :| l == GENERATION_PREFIX + Digits(d);
    LastDigit(d);
    assert l[0] == '#' && l[9] == 'G';
    TrimTrimmed(l, IsSpace);
  }

  lemma HookIsFair(prefix: string, app: string)
    requires ValidName(app) && (prefix == HOOK_BEGIN || prefix == HOOK_END)
    ensures Fair("\t" + prefix + app)
  {
    hide ValidName, TrimSpace, Fair, Inert;
    HookTrims(app);
    var l := "\t" + prefix + app;
    NameIsInert(app);
    HookText(prefix, app);
    OtherMark(l, prefix + app);
    FairComment(l);
  }

  lemma HookText(prefix: string, app: string)
    requires Inert(app) && (prefix == HOOK_BEGIN || prefix == HOOK_END)
    ensures '\n' !in "\t" + prefix + app && '`' !in "\t" + prefix + app
    ensures prefix[0] == '#' && |prefix + app| > 9 && (prefix + app)[9] == 'W'
  {
    assert '\n' !in prefix && '`' !in prefix;
  }

  /** The fragment is fair if its path is one line that reads. */
  lemma FragmentIsFair(app: string, cfg: WebhookConfig)
    requires ValidName(app) && PathReads(cfg) && GoodConfig(cfg)
    ensures AllFair(FragmentLines(app, cfg))
  {
    hide ValidName, TrimSpace, NoDirective, Fair, Digits, Reads, BraceNet, CodeLine;
    FragmentIdles(app, cfg);
    FragmentIsLines(app, cfg);
    HookIsFair(HOOK_BEGIN, app);
    HookIsFair(HOOK_END, app);
    var f := FragmentLines(app, cfg);
    IndentedHead(f[1]);
    IndentedHead(f[2]);
    IndentedHead(f[3]);
    ClosingBrace();
    IndentedHead(f[5]);
    IndentedHead(f[6]);
    FairLine(f[1]);
    FairLine(f[2]);
    FairLine(f[3]);
    FairLine(f[4]);
    FairLine(f[5]);
    FairLine(f[6]);
    FairLine(f[7]);
    NineFair(f);
  }

  lemma NineFair(f: seq<string>)
    requires |f| == 9 && Fair(f[0]) && Fair(f[1]) && Fair(f[2]) && Fair(f[3]) && Fair(f[4])
    requires Fair(f[5]) && Fair(f[6]) && Fair(f[7]) && Fair(f[8])
    ensures AllFair(f)
  {
    hide Fair;
    forall l | l in f ensures Fair(l) {
      var i :| 0 <= i < |f| && f[i] == l;
      assert i in [0, 1, 2, 3, 4, 5, 6, 7, 8];
    }
  }

  // ---- the rest of the block ----

  /** A page that a region can hold. */
  predicate PageFits(page: seq<string>, app: string)
    requires page != []
  {
    PageKept(page, app) && NoPrefixes(BodyLines(page))
  }

  lemma BodyIsFair(page: seq<string>, app: string)
    requires GoodPage(page) && PageFits(page, app) && ValidName(app)
    ensures Fair(BodyLine(page))
  {
    hide Unlines, LinesOf, HeredocTerminator, CodeLine, BraceNet, OddBackticks, MarkerPrefixed, HookFree, Squeeze,
      ValidName, NoRuns;
    BodyIsUnit(page);
    BodyReads(page);
    PageIsSturdy(page, app);
    NothingCollapsed(BodyLine(page));
    BodyLineLines(page);
    BodyLinesAreLines(page);
    LinesOfUnlines(BodyLines(page));
  }

  lemma NeutralIsFair(l: string, net: int)
    requires Neutral(l, net) && '\n' !in l && (TrimSpace(l) == "" || TrimSpace(l)[0] != '#')
    ensures Fair(l)
  {
    hide CodeFrom, HeredocTerminator, TrimSpace, BraceNet, NoDirective, Fair, Unit;
    FairLine(l);
  }

  lemma CodeIsFair(l: string, net: int)
    requires Neutral(l, net) && '\n' !in l && '#' !in l
    ensures Fair(l)
  {
    hide Neutral, Fair, Trim;
    var a, c := TrimParts(l, IsSpace);
    var t := TrimSpace(l);
    assert t != "" ==> t[0] == l[|a|];
    NeutralIsFair(l, net);
  }

  lemma TailIsFair(page: seq<string>, app: string)
    requires GoodPage(page) && PageFits(page, app) && ValidName(app)
    ensures AllFair(TailLines(page))
  {
    hide Fair, Neutral, BodyLine, PageFits, GoodPage, ValidName;
    BodyIsFair(page, app);
    HeadersAreNeutral();
    RespondIsNeutral();
    BraceIsNeutral();
    LastBrace();
    CodeIsFair(TYPE_HEADER + "\"" + TYPE_VALUE + "\"", 0);
    CodeIsFair(RETRY_HEADER + "\"" + RETRY_VALUE + "\"", 0);
    CodeIsFair("\trespond 503 {", 1);
    CodeIsFair("\t}", -1);
    CodeIsFair("}", -1);
    var t := TailLines(page);
    forall l | l in t ensures Fair(l) {
      assert l in [t[0], t[1], t[2], t[3], t[4], t[5]];
    }
  }

  /** Spans of fair lines. */
  predicate FairSpans(pol: SitePolicy) { forall a :: a in pol.access ==> AllFair(LogicalLines(LinesOf(a))) }

  lemma {:induction false} SpansAreFair(spans: seq<seq<string>>)
    requires AllSpans(spans) && forall a :: a in Joined(spans) ==> AllFair(LogicalLines(LinesOf(a)))
    ensures AllFair(Flat(spans))
  {
    hide Fair, Unlines, LinesOf, LogicalFrom;
    if spans != [] {
      assert spans[0] in spans && forall s :: s in spans[1..] ==> s in spans;
      assert Joined(spans)[0] == Unlines(spans[0]);
      assert forall a :: a in Joined(spans[1..]) ==> a in Joined(spans);
      SpanNotEmpty(spans[0]);
      UnitsRead(spans[0]);
      SpansAreFair(spans[1..]);
    }
  }

  lemma TlsIsFair(tls: string, app: string)
    requires TlsReadsBack(tls) && '\n' !in tls && TrimSpace(tls) == tls && tls != "" && ValidName(app)
    ensures Fair(tls)
  {
    hide CodeFrom, HeredocTerminator, BraceNet, TlsLine, Unit, ValidName;
    if tls[0] == '#' {
      CommentCode(tls);
      BlankLine(Code(tls));
      EmptyIsNoTls();
      assert false;
    }
    FairLine(tls);
  }

  lemma AddressIsFair(address: string)
    requires Opener(address) && PlainText(address)
    ensures Fair(address)
  {
    hide OpeningLine, BraceNet, Trim, HeredocTerminator;
    PlainCode(address);
    var a, c := TrimParts(address, IsSpace);
    var t := TrimSpace(address);
    assert t != "" ==> t[0] == address[|a|] && address[|a|] in address;
    OneLineUnit(address);
    OneLineIsFree(address);
  }

  lemma HookLinesAreFair(app: string, hook: Option<WebhookConfig>)
    requires ValidName(app) && (hook.Some? ==> PathReads(hook.value) && GoodConfig(hook.value))
    ensures AllFair(HookLines(app, hook))
  {
    hide Fair, ValidName, PathReads, GoodConfig, FragmentLines;
    if hook.Some? {
      FragmentIsFair(app, hook.value);
    }
  }

  lemma BlockIsFair(generation: nat, address: string, app: string, hook: Option<WebhookConfig>, tls: string,
                    spans: seq<seq<string>>, page: seq<string>)
    requires Opener(address) && PlainText(address) && ValidName(app)
    requires hook.Some? ==> PathReads(hook.value) && GoodConfig(hook.value)
    requires TlsReadsBack(tls) && '\n' !in tls && TrimSpace(tls) == tls
    requires AllSpans(spans) && AllFair(Flat(spans)) && GoodPage(page) && PageFits(page, app)
    ensures AllFair(WrittenLines(generation, address, app, hook, PolicyLines(tls, spans, page)))
  {
    hide Fair, ValidName, PathReads, GoodConfig, TlsReadsBack, TrimSpace, AllSpans, Flat, GoodPage, PageFits,
      StampLines, HookLines, TailLines, Opener, PlainText;
    StampIsFair(generation);
    AddressIsFair(address);
    HookLinesAreFair(app, hook);
    TailIsFair(page, app);
    if tls != "" {
      TlsIsFair(tls, app);
    }
    FairConcat(Flat(spans), TailLines(page));
    FairConcat(if tls == "" then [] else [tls], Flat(spans) + TailLines(page));
    FairConcat(StampLines(generation), [address]);
    FairConcat(StampLines(generation) + [address], HookLines(app, hook));
    FairConcat(StampLines(generation) + [address] + HookLines(app, hook), PolicyLines(tls, spans, page));
  }

  // ---- what it opens ----

  lemma {:induction false} NothingOpened(ls: seq<string>)
    requires forall l :: l in ls ==> Opened(l) == []
    ensures Opens(ls) == multiset{}
  {
    hide Opened;
    if ls != [] {
      assert ls[0] in ls && forall l :: l in ls[1..] ==> l in ls;
      NothingOpened(ls[1..]);
    }
  }

  /** A stamp opens nothing, and a fragment only adds to what is opened. */
  lemma WrittenOpens(generation: nat, address: string, app: string, hook: Option<WebhookConfig>, rest: seq<string>)
    ensures Opens(WrittenLines(generation, address, app, hook, rest)) ==
      Opens(WrittenLines(0, address, app, hook, rest))
    ensures Opens(WrittenLines(generation, address, app, None, rest)) <= Opens(WrittenLines(0, address, app, hook,
      rest))
  {
    hide Opened, Opens, StampLines, HookLines, Fair;
    OpensOfWritten(generation, address, app, hook, rest);
    OpensOfWritten(0, address, app, hook, rest);
    OpensOfWritten(generation, address, app, None, rest);
    NoHookOpens(app);
  }

  lemma NoHookOpens(app: string)
    ensures Opens(HookLines(app, None)) == multiset{}
  {
  }

  lemma OpensOfWritten(generation: nat, address: string, app: string, hook: Option<WebhookConfig>, rest: seq<string>)
    ensures Opens(WrittenLines(generation, address, app, hook, rest)) ==
      Opens([address]) + Opens(HookLines(app, hook)) + Opens(rest)
  {
    hide Opened, Opens, StampLines, HookLines, Fair;
    StampIsFair(generation);
    NothingOpened(StampLines(generation));
    OpensConcat(StampLines(generation) + [address] + HookLines(app, hook), rest);
    OpensConcat(StampLines(generation) + [address], HookLines(app, hook));
    OpensConcat(StampLines(generation), [address]);
  }

  // ---- the whole edit ----

  /** The hosts are served by foreign sites, if at all, on plain address lines, and
      the block, its fragment injected, opens no other foreign address. */
  ghost predicate BlockFits(app: string, hosts: seq<string>, hook: Option<WebhookConfig>, routable: string -> bool,
                            page: seq<string>, pol: SitePolicy, bs: seq<SiteBlock>) {
    var text := Renew(MaintenanceBlock(hosts, pol, routable, page), app, hook);
    && (forall b :: b in bs && Touched(b, hosts) ==> Plainly(b))
    && text.Ok?
    && forall b, a :: b in bs && a in b.addresses && Opens(LogicalLines(LinesOf(text.value)))[a] > 0 ==>
         AddressHost(a) in hosts
  }

  lemma LessOpensFits(body: seq<string>, w: seq<string>, v: seq<string>, hosts: seq<string>, bs: seq<SiteBlock>)
    requires TightBody(body) && LogicalLines(body) == w && Opens(w) <= Opens(v)
    requires forall b, a :: b in bs && a in b.addresses && Opens(v)[a] > 0 ==> AddressHost(a) in hosts
    ensures BodyFits(body, hosts, bs)
  {
    hide TightBody, LogicalFrom, Opens, AddressHost;
    forall b, a | b in bs && a in b.addresses && Opens(LogicalLines(body))[a] > 0 ensures AddressHost(a) in hosts {
      assert Opens(w)[a] <= Opens(v)[a];
    }
  }

  lemma EndsInBrace(generation: nat, address: string, app: string, hook: Option<WebhookConfig>, tls: string,
                    spans: seq<seq<string>>, page: seq<string>)
    ensures var w := WrittenLines(generation, address, app, hook, PolicyLines(tls, spans, page));
      w != [] && Last(w) == "}"
  {
    hide StampLines, HookLines, PolicyLines;
    PolicyLinesSome(tls, spans, page);
  }

  /** Whatever the stamp, the edit that enables maintenance fits the foreign sites. */
  lemma EnablingFits(generation: nat, app: string, hosts: seq<string>, hook: Option<WebhookConfig>,
                     routable: string -> bool, page: seq<string>, pol: SitePolicy, bs: seq<SiteBlock>)
    requires Enabling(app, hosts, hook, page) && (hook.Some? ==> PathReads(hook.value)) && PageFits(page, app)
    requires Carried(pol, app) && FairSpans(pol) && BlockFits(app, hosts, hook, routable, page, pol, bs)
    ensures Fits(BlockEdit(app, hosts, Stamped(generation, MaintenanceBlock(hosts, pol, routable, page)), hook), bs)
  {
    hide ValidName, GoodConfig, GoodPage, NoMarkers, PageKept, PathReads, OneLineHost, PlainHost, GoodPolicy,
      SingleLineTls, KeptAsIs, Fair, TrimSpace, MaintenanceBlock, Stamped, Renew, AllSpans, Opener, TlsReadsBack,
      WrittenLines, PolicyLines, Opens, LogicalFrom, LinesOf, TightBody, BodyOf, Plainly, Touched, AddressHost,
      Unlines, SchemeHosts, JoinAddresses, Flat, StampLines, PlainText, PageFits, Trim, NoPrefixes, FairSpans;
    var spans := SpansFor(pol);
    var tls := TrimSpace(pol.tls);
    var address := JoinAddresses(SchemeHosts(hosts, tls, routable)) + " {";
    var rest := PolicyLines(tls, spans, page);
    var block := Stamped(generation, MaintenanceBlock(hosts, pol, routable, page));
    RenewedText(generation, hosts, pol, routable, page, app, hook, spans);
    RenewedText(0, hosts, pol, routable, page, app, hook, spans);
    NoStamp(MaintenanceBlock(hosts, pol, routable, page));
    StampedText(generation, hosts, pol, routable, page, spans);
    TrimmedReads(pol);
    AddressIsPlain(hosts, tls, routable);
    SpansFit(pol, spans);
    BlockIsFair(generation, address, app, hook, tls, spans, page);
    BlockIsFair(generation, address, app, None, tls, spans, page);
    BlockIsFair(0, address, app, hook, tls, spans, page);
    var w, bare, first := WrittenLines(generation, address, app, hook, rest),
      WrittenLines(generation, address, app, None, rest),
      WrittenLines(0, address, app, hook, rest);
    EndsInBrace(generation, address, app, hook, tls, spans, page);
    EndsInBrace(generation, address, app, None, tls, spans, page);
    EndsInBrace(0, address, app, hook, tls, spans, page);
    TightText(w);
    TightText(bare);
    TightText(first);
    WrittenOpens(generation, address, app, hook, rest);
    WithoutHook(generation, address, app, rest);
    LessOpensFits(BodyOf(Unlines(w)), w, first, hosts, bs);
    LessOpensFits(BodyOf(Unlines(bare)), bare, first, hosts, bs);
    PolicyLinesSome(tls, spans, page);
    HeadLine(generation, address, rest);
    UnprefixedIsUnmarked(LinesOf(block));
  }

  lemma NoStamp(block: string)
    ensures Stamped(0, block) == block
  {
  }

  lemma AddressIsPlain(hosts: seq<string>, tls: string, routable: string -> bool)
    requires Serving(hosts)
    ensures PlainText(JoinAddresses(SchemeHosts(hosts, tls, routable)) + " {")
  {
    hide PlainHost, JoinAddresses, SchemeHosts, PlainText;
    SchemeHostsPlain(hosts, tls, routable);
    AddressLine(SchemeHosts(hosts, tls, routable));
  }

  lemma SpansFit(pol: SitePolicy, spans: seq<seq<string>>)
    requires FairSpans(pol) && AllSpans(spans) && Joined(spans) == pol.access
    ensures AllFair(Flat(spans))
  {
    hide Fair, LogicalFrom, LinesOf;
    SpansAreFair(spans);
  }

  lemma WithoutHook(generation: nat, address: string, app: string, rest: seq<string>)
    ensures StampLines(generation) + [address] + rest == WrittenLines(generation, address, app, None, rest)
  {
    hide StampLines;
    assert StampLines(generation) + [address] + [] == StampLines(generation) + [address];
  }

  lemma UnprefixedIsUnmarked(ls: seq<string>)
    requires NoPrefixes(ls)
    ensures NoMarkers(ls)
  {
    hide MarkerPrefixed, MarkOf;
    PlainLines(ls);
  }
}
