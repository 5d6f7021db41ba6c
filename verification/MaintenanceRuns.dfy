/** Whole runs of maintenance (internal/caddy/caddy.go): while it is on the file
    stays well formed and every other region stays, so switching it off restores
    the file it was switched on in. */
module MaintenanceRuns {
  import opened Wrappers
  import opened Lines
  import opened Text
  import opened TextLines
  import opened Regions
  import opened RegionLaws
  import opened RegionEdit
  import opened RouteLex
  import opened Routes
  import opened RoutePieces
  import opened RouteItems
  import opened Render
  import opened Webhook
  import opened CaddyFile
  import opened SitePolicies
  import opened Maintenance

  // ---- text without marker lines ----

  predicate Unmarked(text: string) { NoMarkers(LinesOf(text)) }

  lemma UnmarkedConcat(a: string, b: string)
    requires Unmarked(a) && Unmarked(b)
    ensures Unmarked(a + "\n" + b)
  {
    hide MarkOf;
    SplitConcat(a, '\n', b);
  }

  lemma UnmarkedLine(l: string)
    requires '\n' !in l && MarkOf(l) == Plain
    ensures Unmarked(l)
  {
    hide MarkOf;
    SplitLine(l, '\n');
  }

  /** A line that is no comment is no marker. */
  lemma UnmarkedCode(l: string)
    requires '\n' !in l && '#' !in l
    ensures Unmarked(l)
  {
    hide MarkOf, LinesOf;
    var a, c := TrimParts(l, IsSpace);
    var t := TrimSpace(l);
    assert t != "" ==> t[0] == l[|a|];
    PlainIfNoHash(l);
    UnmarkedLine(l);
  }

  lemma {:induction false} UnmarkedUnlines(ls: seq<string>)
    requires ls != [] && forall l :: l in ls ==> Unmarked(l)
    ensures Unmarked(Unlines(ls))
  {
    hide Unmarked, Unlines;
    assert ls == [ls[0]] + ls[1..];
    UnlinesCons(ls[0], ls[1..]);
    if |ls| > 1 {
      UnmarkedUnlines(ls[1..]);
      UnmarkedConcat(ls[0], Unlines(ls[1..]));
    }
  }

  lemma {:induction false} UnmarkedTrimmedLeft(ls: seq<string>)
    requires ls != [] && NoMarkers(ls)
    ensures NoMarkers(TrimLinesLeft(ls))
  {
    hide MarkOf, TrimLeft;
    TrimmedMark(ls[0]);
    if |ls| > 1 && TrimLeft(ls[0], IsSpace) == "" {
      UnmarkedTrimmedLeft(ls[1..]);
    }
  }

  lemma {:induction false} UnmarkedTrimmedRight(ls: seq<string>)
    requires ls != [] && NoMarkers(ls)
    ensures NoMarkers(TrimLinesRight(ls))
  {
    hide MarkOf, TrimRight;
    TrimmedMark(Last(ls));
    if |ls| > 1 && TrimRight(Last(ls), IsSpace) == "" {
      UnmarkedTrimmedRight(Front(ls));
    }
  }

  lemma UnmarkedTrimmed(s: string)
    requires Unmarked(s)
    ensures Unmarked(TrimSpace(s))
  {
    hide MarkOf, TrimLinesLeft, TrimLinesRight, NoMarkers, LinesOf;
    SplitTrimSpace(s);
    UnmarkedTrimmedLeft(LinesOf(s));
    UnmarkedTrimmedRight(TrimLinesLeft(LinesOf(s)));
  }

  // ---- a policy taken from unmarked text is unmarked ----

  lemma {:induction false} LogicalUnmarked(ls: seq<string>, open: bool, buf: seq<string>)
    requires NoMarkers(ls + buf) && forall l :: l in ls + buf ==> '\n' !in l
    requires open <==> buf != []
    ensures forall l :: l in LogicalFrom(ls, open, buf) ==> Unmarked(l)
    decreases |ls|
  {
    hide MarkOf, OddBackticks, LinesOf, Unlines;
    if ls == [] {
      if buf != [] {
        LinesOfUnlines(buf);
      }
    } else {
      var l, rest := ls[0], ls[1..];
      assert l in ls && forall x :: x in rest ==> x in ls;
      if open && !OddBackticks(l) {
        LogicalUnmarked(rest, true, buf + [l]);
      } else if !open && OddBackticks(l) {
        LogicalUnmarked(rest, true, [l]);
      } else {
        LogicalUnmarked(rest, false, []);
        if open {
          LinesOfUnlines(buf + [l]);
        } else {
          UnmarkedLine(l);
        }
      }
    }
  }

  predicate UnmarkedPolicy(pol: SitePolicy) { Unmarked(pol.tls) && forall a :: a in pol.access ==> Unmarked(a) }

  lemma {:induction false} PolicyIsUnmarked(ls: seq<string>, depth: int, pol: SitePolicy)
    requires (forall l :: l in ls ==> Unmarked(l)) && UnmarkedPolicy(pol) && PolicyFrom(ls, depth, pol).Ok?
    ensures UnmarkedPolicy(PolicyFrom(ls, depth, pol).value)
    decreases |ls|
  {
    hide CodeLine, BraceNet, TrimSpace, AccessLine, TlsLine, HeredocTerminator, Unlines, Unmarked;
    var raw := ls[0];
    assert raw in ls;
    if HeredocTerminator(Code(raw)).Some? {
      var after := AfterTerminator(ls[1..], HeredocTerminator(Code(raw)).value);
      assert forall l :: l in after ==> l in ls;
      PolicyIsUnmarked(after, depth, pol);
    } else {
      var trimmed, net := TrimSpace(Code(raw)), Net(raw);
      if depth == 1 && AccessLine(trimmed) {
        var n := SpanEnd(ls[1..], net).value;
        assert forall l :: l in ls[..1 + n] || l in ls[1 + n..] ==> l in ls;
        UnmarkedUnlines(ls[..1 + n]);
        PolicyIsUnmarked(ls[1 + n..], depth, pol.(access := pol.access + [Unlines(ls[..1 + n])]));
      } else if depth + net > 0 {
        PolicyIsUnmarked(ls[1..], depth + net, if depth == 1 && TlsLine(trimmed) then pol.(tls := raw) else pol);
      }
    }
  }

  lemma ExtractedIsUnmarked(block: string)
    requires Unmarked(block) && ExtractPolicy(block).Ok?
    ensures UnmarkedPolicy(ExtractPolicy(block).value)
  {
    hide PolicyFrom, LogicalFrom, LinesOf, OpeningLine, MarkOf, BraceNet;
    var ls := LogicalLines(LinesOf(block));
    LinesOfText(block);
    LogicalUnmarked(LinesOf(block), false, []);
    var i := OpeningLine(ls).value;
    assert UnmarkedPolicy(NO_POLICY) by { NoPolicyIsUnmarked(); }
    PolicyIsUnmarked(ls[i + 1..], BraceNet(ls[i]), NO_POLICY);
  }

  lemma NoPolicyIsUnmarked()
    ensures UnmarkedPolicy(NO_POLICY)
  {
    UnmarkedCode("");
  }

  // ---- so is the maintenance block ----

  /** A host as parseDomains lets it through: no comment, one line. */
  predicate OneLineHost(h: string) { '#' !in h && '\n' !in h }

  lemma {:induction false} AddressesAreCode(hosts: seq<string>, tls: string, routable: string -> bool)
    requires forall h :: h in hosts ==> OneLineHost(h)
    ensures OneLineHost(JoinAddresses(SchemeHosts(hosts, tls, routable)))
  {
    if hosts != [] {
      assert hosts[0] in hosts && forall h :: h in hosts[1..] ==> h in hosts;
      AddressesAreCode(hosts[1..], tls, routable);
      var joined := SchemeHosts(hosts, tls, routable);
      assert joined[1..] == SchemeHosts(hosts[1..], tls, routable);
      assert OneLineHost(joined[0]);
    }
  }

  lemma {:induction false} SpansAreUnmarked(access: seq<string>, rest: string)
    requires (forall a :: a in access ==> Unmarked(a)) && Unmarked(rest)
    ensures Unmarked(AccessSpans(access) + rest)
  {
    hide Unmarked;
    if access == [] {
      assert AccessSpans(access) + rest == rest;
    } else {
      assert access[0] in access;
      SpansAreUnmarked(access[1..], rest);
      UnmarkedConcat(access[0], AccessSpans(access[1..]) + rest);
      assert AccessSpans(access) + rest == access[0] + "\n" + (AccessSpans(access[1..]) + rest);
    }
  }

  /** A name holds no quote, so a line that ends in one is no marker. */
  lemma QuoteEndIsPlain(l: string)
    ensures MarkOf(l + "`") == Plain
  {
    hide TrimLeft, TrimRight;
    var s := l + "`";
    TrimSpaceOfTrimSuffix(s);
    var t := TrimSpace(s);
    EndsInQuote(s);
    if BEGIN_PREFIX <= t {
      QuotedName(t, BEGIN_PREFIX);
    }
    if END_PREFIX <= t {
      QuotedName(t, END_PREFIX);
    }
  }

  lemma Throughout(s: string, cut: char -> bool)
    requires forall x :: x in s ==> cut(x)
    ensures forall i :: 0 <= i < |s| ==> cut(s[i])
    ensures s != "" ==> cut(s[0]) && cut(s[|s| - 1])
  {
    assert forall i :: 0 <= i < |s| ==> s[i] in s;
  }

  lemma EndsInQuote(s: string)
    requires s != "" && s[|s| - 1] == '`'
    ensures var t := TrimSpace(s); t != "" && t[|t| - 1] == '`'
  {
    hide Trim;
    var a, c := TrimParts(s, IsSpace);
    var t := TrimSpace(s);
    Throughout(a, IsSpace);
    Throughout(c, IsSpace);
    assert s == (a + t) + c;
    assert c == [];
    assert s == a + t;
  }

  lemma QuotedName(t: string, prefix: string)
    requires prefix <= t && t != "" && t[|t| - 1] == '`' && prefix != "" && prefix[|prefix| - 1] != '`'
    ensures !ValidName(TrimSpace(TrimPrefix(t, prefix)))
  {
    hide Trim;
    var name := TrimPrefix(t, prefix);
    assert name == t[|prefix|..] && name != "";
    EndsInQuote(name);
    assert TrimSpace(name)[|TrimSpace(name)| - 1] in TrimSpace(name);
  }

  lemma PageIsUnmarked(page: seq<string>)
    requires GoodPage(page) && NoMarkers(page)
    ensures Unmarked(BodyLine(page))
  {
    hide MarkOf, LinesOf, Unlines, HeredocTerminator, TrimSpace;
    var p, rest := page[0], page[1..];
    assert p in page && page == [p] + rest && Quotable(p);
    UnlinesCons(p, rest);
    var first := "\t\tbody `" + p;
    if rest == [] {
      QuoteEndIsPlain(first);
      UnmarkedLine(first + "`");
      assert BodyLine(page) == first + "`";
    } else {
      BodyOpens(p);
      var text := Unlines(rest);
      assert forall l :: l in rest ==> l in page && Quotable(l);
      LinesOfUnlines(rest);
      SplitSnocChar(text, '`');
      QuoteEndIsPlain(Last(rest));
      assert Unmarked(text + ['`']) by {
        forall l | l in LinesOf(text + ['`']) ensures MarkOf(l) == Plain {
          assert l in Front(rest) + [Last(rest) + ['`']];
          assert l in rest || l == Last(rest) + "`";
        }
      }
      UnmarkedConcat(first, text + ['`']);
      assert BodyLine(page) == first + "\n" + (text + ['`']);
    }
  }

  lemma BodyOpens(p: string)
    requires '\n' !in p
    ensures Unmarked("\t\tbody `" + p)
  {
    hide MarkOf, LinesOf, TrimRight;
    var l := "\t\tbody `" + p;
    var code := "body `" + p;
    assert l == "\t\t" + code + "";
    TrimAround("\t\t", code, "", IsSpace);
    TrimKeepsHead(code, IsSpace);
    PlainIfNoHash(l);
    UnmarkedLine(l);
  }

  lemma TailIsUnmarked(page: seq<string>)
    requires GoodPage(page) && NoMarkers(page)
    ensures Unmarked(Unlines(TailLines(page)))
  {
    hide Unmarked, BodyLine, Unlines, NoMarkers, GoodPage;
    var t := TailLines(page);
    PageIsUnmarked(page);
    HeadersAreUnmarked();
    UnmarkedCode("\trespond 503 {");
    UnmarkedCode("\t}");
    UnmarkedCode("}");
    forall l | l in t ensures Unmarked(l) {
      assert l in [t[0], t[1], t[2], t[3], t[4], t[5]];
    }
    UnmarkedUnlines(t);
  }

  lemma HeadersAreUnmarked()
    ensures Unmarked(TYPE_HEADER + "\"" + TYPE_VALUE + "\"") && Unmarked(RETRY_HEADER + "\"" + RETRY_VALUE + "\"")
  {
    hide Unmarked;
    TypeIsCode();
    RetryIsCode();
    UnmarkedCode(TYPE_HEADER + "\"" + TYPE_VALUE + "\"");
    UnmarkedCode(RETRY_HEADER + "\"" + RETRY_VALUE + "\"");
  }

  lemma TypeIsCode()
    ensures var l := TYPE_HEADER + "\"" + TYPE_VALUE + "\""; '\n' !in l && '#' !in l
  {
    assert '\n' !in TYPE_HEADER && '#' !in TYPE_HEADER;
    assert '\n' !in TYPE_VALUE && '#' !in TYPE_VALUE;
  }

  lemma RetryIsCode()
    ensures var l := RETRY_HEADER + "\"" + RETRY_VALUE + "\""; '\n' !in l && '#' !in l
  {
    assert '\n' !in RETRY_HEADER && '#' !in RETRY_HEADER;
  }

  lemma MaintenanceIsUnmarked(hosts: seq<string>, pol: SitePolicy, routable: string -> bool, page: seq<string>)
    requires (forall h :: h in hosts ==> OneLineHost(h)) && UnmarkedPolicy(pol) && GoodPage(page) && NoMarkers(page)
    ensures Unmarked(MaintenanceBlock(hosts, pol, routable, page))
  {
    hide Unmarked, TrimSpace, SchemeHosts, JoinAddresses, AccessSpans, TailLines, Unlines, GoodPage, NoMarkers;
    var tls := TrimSpace(pol.tls);
    UnmarkedTrimmed(pol.tls);
    TailIsUnmarked(page);
    var rest := AccessSpans(pol.access) + Unlines(TailLines(page));
    SpansAreUnmarked(pol.access, Unlines(TailLines(page)));
    var after := if tls == "" then rest else tls + "\n" + rest;
    if tls != "" {
      UnmarkedConcat(tls, rest);
    }
    AddressesAreCode(hosts, tls, routable);
    var head := JoinAddresses(SchemeHosts(hosts, tls, routable)) + " {";
    UnmarkedCode(head);
    UnmarkedConcat(head, after);
    assert MaintenanceBlock(hosts, pol, routable, page) == head + "\n" + after;
  }

  lemma StampIsPlain(generation: nat)
    ensures MarkOf(GENERATION_PREFIX + Digits(generation)) == Plain
  {
    hide Trim, Digits, MarkOf;
    var l := GENERATION_PREFIX + Digits(generation);
    LastDigit(generation);
    assert l[0] == '#' && l[9] == 'G';
    TrimTrimmed(l, IsSpace);
    PlainByTenth(l, l);
  }

  lemma StampedIsUnmarked(generation: nat, block: string)
    requires Unmarked(block)
    ensures Unmarked(Stamped(generation, block))
  {
    hide Unmarked, MarkOf, Digits;
    if generation > 0 {
      var stamp := GENERATION_PREFIX + Digits(generation);
      DigitsAreDigits(generation);
      StampIsPlain(generation);
      UnmarkedLine(stamp);
      UnmarkedConcat(stamp, block);
    }
  }

  /** What maintenance writes into a well-formed file holds no marker line. */
  lemma OnBlockIsUnmarked(prev: string, app: string, hosts: seq<string>, routable: string -> bool, page: seq<string>)
    requires WellFormed(LinesOf(prev)) && ValidName(app)
    requires (forall h :: h in hosts ==> OneLineHost(h)) && GoodPage(page) && NoMarkers(page)
    requires OnBlock(prev, app, hosts, routable, page).Ok?
    ensures Unmarked(OnBlock(prev, app, hosts, routable, page).value)
  {
    hide WellFormed, LinesOf, ValidName, GoodPage, NoMarkers, MaintenanceBlock, ExtractPolicy, ExtractBlock, Stamped,
      GenerationOf, UnmarkedPolicy, NO_POLICY;
    var cur := ExtractBlock(prev, app);
    if cur == "" {
      NoPolicyIsUnmarked();
      MaintenanceIsUnmarked(hosts, NO_POLICY, routable, page);
    } else {
      ExtractedHasNoMarkers(prev, app);
      ExtractedIsUnmarked(cur);
      var pol := ExtractPolicy(cur).value;
      MaintenanceIsUnmarked(hosts, pol, routable, page);
      StampedIsUnmarked(GenerationOf(LinesOf(cur)), MaintenanceBlock(hosts, pol, routable, page));
    }
  }

  // ---- the run ----

  /** Every region but the app's, and the legacy one it replaces, is as it was. */
  ghost predicate KeepsOthers(after: map<string, seq<string>>, before: map<string, seq<string>>, app: string) {
    NearRegions(after - {app, "lb-" + app}, before - {app, "lb-" + app})
  }

  lemma EditKeepsOthers(after: map<string, seq<string>>, before: map<string, seq<string>>, e: BlockEdit, goes: bool)
    requires NearRegions(after, MeantBy(before, e, goes))
    ensures KeepsOthers(after, before, e.app)
  {
    hide WrittenBody, SqueezeLines;
  }

  lemma KeepsTrans(c: map<string, seq<string>>, b: map<string, seq<string>>, a: map<string, seq<string>>, app: string)
    requires KeepsOthers(c, b, app) && KeepsOthers(b, a, app)
    ensures KeepsOthers(c, a, app)
  {
    hide NearRegions;
    NearTrans(c - {app, "lb-" + app}, b - {app, "lb-" + app}, a - {app, "lb-" + app});
  }

  lemma SameKeepsOthers(r: map<string, seq<string>>, app: string)
    ensures KeepsOthers(r, r, app)
  {
  }

  /** Switching maintenance on, with hosts the client accepts, in a file where
      adoption touches no region. */
  ghost predicate Switch(s: SiteState, app: string, e: Event) {
    && e.On? && (forall h :: h in e.hosts ==> OneLineHost(h))
    && AdoptionSpares(TrimSpace(s.file), app, e.hosts)
  }

  ghost predicate Switches(s: SiteState, app: string, hook: Option<WebhookConfig>, routable: string -> bool,
                           page: seq<string>, es: seq<Event>) {
    forall k :: 0 <= k < |es| ==> Switch(After(s, app, hook, routable, page, es[..k]), app, es[k])
  }

  ghost predicate Sane(app: string, hook: Option<WebhookConfig>, page: seq<string>) {
    ValidName(app) && (hook.Some? ==> GoodConfig(hook.value)) && GoodPage(page) && NoMarkers(page)
  }

  lemma SwitchKeeps(s: SiteState, app: string, hook: Option<WebhookConfig>, routable: string -> bool,
                    page: seq<string>, e: Event)
    requires Sane(app, hook, page) && Switch(s, app, e) && WellFormed(LinesOf(s.file))
    ensures var t := OnStep(s, app, e.hosts, hook, routable, page, e.fate);
      WellFormed(LinesOf(t.file)) && KeepsOthers(RegionsOf(LinesOf(t.file)), RegionsOf(LinesOf(s.file)), app)
  {
    hide WellFormed, RegionsOf, LinesOf, ValidName, GoodConfig, GoodPage, NoMarkers, TrimSpace, OnBlock,
      AdoptionSpares, ApplyManaged, MeantBy, LegacyGoes, KeepsOthers, NearRegions;
    var prev := TrimSpace(s.file);
    Read(s.file);
    SameKeepsOthers(RegionsOf(LinesOf(s.file)), app);
    var block := OnBlock(prev, app, e.hosts, routable, page);
    if block.Ok? {
      OnBlockIsUnmarked(prev, app, e.hosts, routable, page);
      var edit := BlockEdit(app, e.hosts, block.value, hook);
      var text := ApplyManaged(prev, edit);
      if text.Ok? {
        ManagedEditKeeps(prev, edit);
        EditKeepsOthers(RegionsOf(LinesOf(text.value)), RegionsOf(LinesOf(prev)), edit, LegacyGoes(prev, app, e.hosts));
      }
    }
  }

  lemma {:induction false} SwitchesKeep(s: SiteState, app: string, hook: Option<WebhookConfig>,
                                        routable: string -> bool, page: seq<string>, es: seq<Event>)
    requires Sane(app, hook, page) && Switches(s, app, hook, routable, page, es) && WellFormed(LinesOf(s.file))
    ensures var t := After(s, app, hook, routable, page, es);
      WellFormed(LinesOf(t.file)) && KeepsOthers(RegionsOf(LinesOf(t.file)), RegionsOf(LinesOf(s.file)), app)
    decreases |es|
  {
    hide WellFormed, RegionsOf, LinesOf, Sane, OnStep, KeepsOthers, Switch;
    if es == [] {
      SameKeepsOthers(RegionsOf(LinesOf(s.file)), app);
    } else {
      var front, last := es[..|es| - 1], es[|es| - 1];
      forall k | 0 <= k < |front| ensures Switch(After(s, app, hook, routable, page, front[..k]), app, front[k]) {
        assert front[..k] == es[..k] && front[k] == es[k];
      }
      SwitchesKeep(s, app, hook, routable, page, front);
      var mid := After(s, app, hook, routable, page, front);
      assert last.On? by { assert Switch(mid, app, last); SwitchIsOn(mid, app, last); }
      SwitchKeeps(mid, app, hook, routable, page, last);
      var end := OnStep(mid, app, last.hosts, hook, routable, page, last.fate);
      KeepsTrans(RegionsOf(LinesOf(end.file)), RegionsOf(LinesOf(mid.file)), RegionsOf(LinesOf(s.file)), app);
    }
  }

  lemma SwitchIsOn(s: SiteState, app: string, e: Event)
    requires Switch(s, app, e)
    ensures e.On?
  {
  }

  /** Switched on any number of times, adoption touching no region, and then off,
      the app's block is exactly what it was and every other region keeps its lines. */
  lemma SwitchedOffRestores(s: SiteState, app: string, hook: Option<WebhookConfig>, routable: string -> bool,
                            page: seq<string>, es: seq<Event>)
    requires s.stash == None && WellFormed(LinesOf(s.file)) && Sane(app, hook, page)
    requires Switches(s, app, hook, routable, page, es)
    requires var cur := ExtractBlock(TrimSpace(s.file), app); Settled(cur, app, hook) && ExtractPolicy(cur).Ok?
    ensures var end := OffStep(After(s, app, hook, routable, page, es), app, hook, Commits, true);
      var file := TrimSpace(end.file);
      && end.stash == None && WellFormed(LinesOf(file))
      && ExtractBlock(file, app) == ExtractBlock(TrimSpace(s.file), app)
      && KeepsOthers(RegionsOf(LinesOf(file)), RegionsOf(LinesOf(s.file)), app)
  {
    hide WellFormed, RegionsOf, LinesOf, ExtractBlock, ExtractPolicy, TrimSpace, OffStep, Settled, After, KeepsOthers,
      GoodPage, NoMarkers, GoodConfig, ValidName, Restored;
    AllAreOn(s, app, hook, routable, page, es);
    SwitchesKeep(s, app, hook, routable, page, es);
    var k := FirstOf(es);
    assert forall i :: 0 <= i < |es[..k]| ==> es[..k][i] == es[i];
    NoStashYet(s, app, hook, routable, page, es[..k]);
    var mid := After(s, app, hook, routable, page, es);
    if k < |es| {
      MaintenanceRoundTrip(s, app, hook, routable, page, es, k);
      RestoredKeepsOthers(s, mid, app, hook);
    } else {
      assert es[..k] == es;
      NothingToUndo(mid, app, hook);
      Read(s.file);
    }
  }

  lemma AllAreOn(s: SiteState, app: string, hook: Option<WebhookConfig>, routable: string -> bool,
                 page: seq<string>, es: seq<Event>)
    requires Switches(s, app, hook, routable, page, es)
    ensures forall i :: 0 <= i < |es| ==> es[i].On?
  {
    hide After;
    forall i | 0 <= i < |es| ensures es[i].On? {
      assert Switch(After(s, app, hook, routable, page, es[..i]), app, es[i]);
    }
  }

  lemma RestoredKeepsOthers(s: SiteState, mid: SiteState, app: string, hook: Option<WebhookConfig>)
    requires WellFormed(LinesOf(s.file)) && WellFormed(LinesOf(mid.file))
    requires KeepsOthers(RegionsOf(LinesOf(mid.file)), RegionsOf(LinesOf(s.file)), app)
    requires var file := TrimSpace(OffStep(mid, app, hook, Commits, true).file);
      Restored(file, TrimSpace(mid.file), app, ExtractBlock(TrimSpace(s.file), app), hook)
    ensures var file := TrimSpace(OffStep(mid, app, hook, Commits, true).file);
      && WellFormed(LinesOf(file)) && ExtractBlock(file, app) == ExtractBlock(TrimSpace(s.file), app)
      && KeepsOthers(RegionsOf(LinesOf(file)), RegionsOf(LinesOf(s.file)), app)
  {
    hide WellFormed, RegionsOf, LinesOf, ExtractBlock, TrimSpace, OffStep, KeepsOthers, MeantBy, LegacyGoes,
      NearRegions;
    var file := TrimSpace(OffStep(mid, app, hook, Commits, true).file);
    Read(mid.file);
    var edit := BlockEdit(app, [], ExtractBlock(TrimSpace(s.file), app), hook);
    EditKeepsOthers(RegionsOf(LinesOf(file)), RegionsOf(LinesOf(TrimSpace(mid.file))), edit,
      LegacyGoes(TrimSpace(mid.file), app, []));
    KeepsTrans(RegionsOf(LinesOf(file)), RegionsOf(LinesOf(mid.file)), RegionsOf(LinesOf(s.file)), app);
  }
}
