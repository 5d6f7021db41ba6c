/** Whole runs of maintenance, from what the file and the requests are: the policy
    stays live all along, and switching it off restores the file
    (internal/caddy/caddy.go, routes.go, webhook.go). */
module MaintenanceFiles {
  import opened Wrappers
  import opened Text
  import opened TextLines
  import opened Regions
  import opened RegionLaws
  import opened RegionEdit
  import opened RouteLex
  import opened Routes
  import opened RouteItems
  import opened Adoption
  import opened AdoptionExact
  import opened Render
  import opened Webhook
  import opened FileItems
  import opened FileEdits
  import opened FileReads
  import opened PlainFiles
  import opened CaddyFile
  import opened CaddyRuns
  import opened SitePolicies
  import opened MaintenancePolicy
  import opened Maintenance
  import opened MaintenanceRuns
  import opened PolicyKept
  import opened MaintenanceFits

  // ---- the policy, again and again ----

  /** Policies that maintenance does not tell apart. */
  predicate Alike(a: SitePolicy, b: SitePolicy) { TrimSpace(a.tls) == TrimSpace(b.tls) && a.access == b.access }

  lemma AlikeBlocks(hosts: seq<string>, a: SitePolicy, b: SitePolicy, routable: string -> bool, page: seq<string>)
    requires Alike(a, b)
    ensures MaintenanceBlock(hosts, a, routable, page) == MaintenanceBlock(hosts, b, routable, page)
  {
    hide TrimSpace, JoinAddresses, SchemeHosts, AccessSpans, TailLines;
  }

  lemma KeptIsAlike(pol: SitePolicy, app: string)
    requires SingleLineTls(pol) && KeptAsIs(pol, app) && GoodPolicy(pol)
    ensures var kept := SitePolicy(TrimSpace(pol.tls), pol.access);
      Alike(kept, pol) && SingleLineTls(kept) && KeptAsIs(kept, app)
  {
    hide Trim, GoodSpan, HookFree, NoRuns, LinesOf, TlsLine, CodeLine, BraceNet;
    TrimmedReads(pol);
  }

  /** The block that enabling maintenance for the hosts writes fits the foreign
      sites, whatever its stamp. */
  ghost predicate SwitchFits(app: string, hosts: seq<string>, hook: Option<WebhookConfig>, routable: string -> bool,
                             page: seq<string>, pol: SitePolicy, bs: seq<SiteBlock>) {
    forall generation: nat ::
      Fits(BlockEdit(app, hosts, Stamped(generation, MaintenanceBlock(hosts, pol, routable, page)), hook), bs)
  }

  lemma SwitchFitsShrunk(app: string, hosts: seq<string>, hook: Option<WebhookConfig>, routable: string -> bool,
                         page: seq<string>, pol: SitePolicy, after: seq<SiteBlock>, before: seq<SiteBlock>)
    requires SwitchFits(app, hosts, hook, routable, page, pol, before) && Shrunk(after, before)
    ensures SwitchFits(app, hosts, hook, routable, page, pol, after)
  {
    hide Fits, Shrunk, Stamped, MaintenanceBlock;
    forall generation: nat
      ensures Fits(BlockEdit(app, hosts, Stamped(generation, MaintenanceBlock(hosts, pol, routable, page)), hook),
        after)
    {
      FitsShrunk(BlockEdit(app, hosts, Stamped(generation, MaintenanceBlock(hosts, pol, routable, page)), hook), after,
        before);
    }
  }

  // ---- one switch ----

  /** A file, as it is read, made of the items, with the app's policy in it. */
  ghost predicate Holding(file: string, items: seq<Item>, app: string, pol: SitePolicy) {
    && WellFormed(LinesOf(file)) && IsFile(TrimSpace(file), items) && OwnAddresses(items)
    && exists p :: Finds(TrimSpace(file), app, p) && Alike(p, pol)
  }

  /** The edit an enabling makes of the file it reads. */
  lemma SwitchEdit(prev: string, items: seq<Item>, app: string, hosts: seq<string>, hook: Option<WebhookConfig>,
                   routable: string -> bool, page: seq<string>, pol: SitePolicy, p: SitePolicy) returns (e: BlockEdit)
    requires Finds(prev, app, p) && Alike(p, pol) && SwitchFits(app, hosts, hook, routable, page, pol, SitesOf(items))
    ensures OnBlock(prev, app, hosts, routable, page).Ok?
    ensures e == BlockEdit(app, hosts, OnBlock(prev, app, hosts, routable, page).value, hook) && Fits(e, SitesOf(items))
  {
    hide Fits, LivePolicy, LiveGeneration, MaintenanceBlock, Stamped, SingleLineTls, KeptAsIs, Alike, OnBlock;
    OnBlockIs(prev, app, hosts, routable, page);
    AlikeBlocks(hosts, p, pol, routable, page);
    e := BlockEdit(app, hosts, OnBlock(prev, app, hosts, routable, page).value, hook);
    var generation := LiveGeneration(prev, app);
    assert Fits(BlockEdit(app, hosts, Stamped(generation, MaintenanceBlock(hosts, pol, routable, page)), hook),
      SitesOf(items));
  }

  lemma SwitchText(prev: string, items: seq<Item>, app: string, hosts: seq<string>, hook: Option<WebhookConfig>,
                   routable: string -> bool,
                   page: seq<string>, pol: SitePolicy, p: SitePolicy) returns (after: seq<Item>)
    requires WellFormed(LinesOf(prev)) && IsFile(prev, items) && OwnAddresses(items)
    requires Finds(prev, app, p) && Alike(p, pol) && SwitchFits(app, hosts, hook, routable, page, pol, SitesOf(items))
    requires Enabling(app, hosts, hook, page) && (hook.Some? ==> PathReads(hook.value))
    requires OnText(prev, app, hosts, hook, routable, page).Ok?
    ensures AdoptionSpares(prev, app, hosts)
    ensures var text := OnText(prev, app, hosts, hook, routable, page).value;
      && WellFormed(LinesOf(text)) && IsFile(TrimSpace(text), after) && OwnAddresses(after) &&
        Shrunk(SitesOf(after), SitesOf(items))
      && exists q :: Finds(TrimSpace(text), app, q) && Alike(q, pol)
  {
    hide WellFormed, RegionsOf, LinesOf, IsFile, OwnAddresses, Shrunk, SitesOf, Finds, Alike, SwitchFits, Enabling,
      PathReads, AdoptionSpares, ApplyManaged, OnBlock, TrimSpace, Fits, GoodEdit, NearRegions, MeantBy, LegacyGoes;
    var e := SwitchEdit(prev, items, app, hosts, hook, routable, page, pol, p);
    after := EditedTo(prev, items, e);
    FitsIsGood(e, SitesOf(items));
    ManagedEditKeeps(prev, e);
    SwitchPolicy(prev, app, hosts, hook, routable, page, pol, p);
  }

  lemma SwitchPolicy(prev: string, app: string, hosts: seq<string>, hook: Option<WebhookConfig>,
                     routable: string -> bool, page: seq<string>, pol: SitePolicy, p: SitePolicy)
    requires WellFormed(LinesOf(prev)) && AdoptionSpares(prev, app, hosts) && Finds(prev, app, p) && Alike(p, pol)
    requires Enabling(app, hosts, hook, page) && (hook.Some? ==> PathReads(hook.value))
    requires OnText(prev, app, hosts, hook, routable, page).Ok? &&
      WellFormed(LinesOf(OnText(prev, app, hosts, hook, routable, page).value))
    ensures var text := OnText(prev, app, hosts, hook, routable, page).value;
      exists q :: Finds(TrimSpace(text), app, q) && Alike(q, pol)
  {
    hide WellFormed, LinesOf, AdoptionSpares, TrimSpace, OnText, ExtractBlock, ExtractPolicy, GoodPolicy,
      SingleLineTls, KeptAsIs, ValidName, GoodPage, NoMarkers, GoodConfig, PageKept, PathReads, Serving, OneLineHost;
    var text := OnText(prev, app, hosts, hook, routable, page).value;
    EnablingKeepsPolicy(prev, app, hosts, hook, routable, page, p);
    TrimmedReadsSame(text, app);
    LiveIsGood(prev, app);
    KeptIsAlike(p, app);
    var q := SitePolicy(TrimSpace(p.tls), p.access);
    assert Finds(TrimSpace(text), app, q) && Alike(q, pol);
  }

  lemma SwitchFile(s: SiteState, items: seq<Item>, app: string, hosts: seq<string>, hook: Option<WebhookConfig>,
                   routable: string -> bool,
                   page: seq<string>, fate: Fate, pol: SitePolicy) returns (after: seq<Item>)
    requires Holding(s.file, items, app, pol) && SwitchFits(app, hosts, hook, routable, page, pol, SitesOf(items))
    requires Enabling(app, hosts, hook, page) && (hook.Some? ==> PathReads(hook.value))
    ensures Switch(s, app, On(hosts, fate))
    ensures Holding(OnStep(s, app, hosts, hook, routable, page, fate).file, after, app, pol) &&
      Shrunk(SitesOf(after), SitesOf(items))
  {
    hide WellFormed, LinesOf, IsFile, OwnAddresses, Shrunk, SitesOf, Finds, Alike, SwitchFits, PathReads,
      AdoptionSpares, OnText, OnBlock, TrimSpace, Fits, OnStep, Sane, PageKept, Serving, OneLineHost;
    var prev := TrimSpace(s.file);
    Read(s.file);
    var p :| Finds(prev, app, p) && Alike(p, pol);
    var e := SwitchEdit(prev, items, app, hosts, hook, routable, page, pol, p);
    var rendered := RenderedFile(prev, items, e);
    var text := OnText(prev, app, hosts, hook, routable, page);
    after := items;
    ShrunkSelf(SitesOf(items));
    OnFile(s, app, hosts, hook, routable, page, fate);
    if text.Ok? {
      var written := SwitchText(prev, items, app, hosts, hook, routable, page, pol, p);
      if OnStep(s, app, hosts, hook, routable, page, fate).file == text.value {
        after := written;
      }
    }
  }

  /** An enabling leaves the file, or what was read of it, or its text. */
  lemma OnFile(s: SiteState, app: string, hosts: seq<string>, hook: Option<WebhookConfig>, routable: string -> bool,
               page: seq<string>, fate: Fate)
    ensures var file, text := OnStep(s, app, hosts, hook, routable, page, fate).file,
      OnText(TrimSpace(s.file), app, hosts, hook, routable, page);
      || (text.Ok? && file == text.value)
      || ((file == s.file || file == TrimSpace(s.file)) && TrimSpace(file) == TrimSpace(s.file))
  {
    hide OnText, OnStash, TrimSpace;
    ReadTwice(s.file);
  }

  // ---- any run of them ----

  /** Enabling maintenance any number of times, with edits that fit the foreign
      sites. */
  ghost predicate FittingSwitches(es: seq<Event>, app: string, hook: Option<WebhookConfig>, routable: string -> bool,
                                  page: seq<string>, pol: SitePolicy, bs: seq<SiteBlock>) {
    forall k :: 0 <= k < |es| ==>
      && es[k].On? && Enabling(app, es[k].hosts, hook, page)
      && SwitchFits(app, es[k].hosts, hook, routable, page, pol, bs)
  }

  lemma {:induction false} SwitchRun(s: SiteState, items: seq<Item>, app: string, hook: Option<WebhookConfig>,
                                     routable: string -> bool,
                                     page: seq<string>, pol: SitePolicy, es: seq<Event>) returns (after: seq<Item>)
    requires Holding(s.file, items, app, pol) && FittingSwitches(es, app, hook, routable, page, pol, SitesOf(items))
    requires hook.Some? ==> PathReads(hook.value)
    ensures Switches(s, app, hook, routable, page, es)
    ensures Holding(After(s, app, hook, routable, page, es).file, after, app, pol) &&
      Shrunk(SitesOf(after), SitesOf(items))
    decreases |es|
  {
    hide Holding, Enabling, SwitchFits, SitesOf, Shrunk, OnStep, Switch, PathReads;
    if es == [] {
      after := items;
      ShrunkSelf(SitesOf(items));
    } else {
      var front, last := es[..|es| - 1], es[|es| - 1];
      assert forall k :: 0 <= k < |front| ==> front[k] == es[k];
      var mid := SwitchRun(s, items, app, hook, routable, page, pol, front);
      var t := After(s, app, hook, routable, page, front);
      SwitchFitsShrunk(app, last.hosts, hook, routable, page, pol, SitesOf(mid), SitesOf(items));
      after := SwitchFile(t, mid, app, last.hosts, hook, routable, page, last.fate, pol);
      ShrunkTrans(SitesOf(after), SitesOf(mid), SitesOf(items));
      SwitchesMore(s, app, hook, routable, page, es);
    }
  }

  lemma SwitchesMore(s: SiteState, app: string, hook: Option<WebhookConfig>, routable: string -> bool,
                     page: seq<string>, es: seq<Event>)
    requires es != [] && Switches(s, app, hook, routable, page, es[..|es| - 1])
    requires Switch(After(s, app, hook, routable, page, es[..|es| - 1]), app, es[|es| - 1])
    ensures Switches(s, app, hook, routable, page, es)
  {
    hide Switch, After;
    var front := es[..|es| - 1];
    forall k | 0 <= k < |es| ensures Switch(After(s, app, hook, routable, page, es[..k]), app, es[k]) {
      if k < |front| {
        assert front[..k] == es[..k] && front[k] == es[k];
      }
    }
  }

  /** The file maintenance is switched on in: plain, its foreign sites have their
      addresses to themselves, and the app has a settled block with a policy that
      is carried. */
  ghost predicate Maintainable(file: string, app: string, hook: Option<WebhookConfig>, pol: SitePolicy) {
    var cur := ExtractBlock(TrimSpace(file), app);
    && PlainFile(LinesOf(file)) && OwnSites(file)
    && Settled(cur, app, hook) && ExtractPolicy(cur) == Ok(pol) && SingleLineTls(pol) && KeptAsIs(pol, app)
    && FairSpans(pol)
  }

  /** Enabling maintenance any number of times, for hosts whose block opens no other
      foreign site's address; and the descriptor and the page it is enabled with. */
  ghost predicate Requests(es: seq<Event>, app: string, hook: Option<WebhookConfig>, routable: string -> bool,
                           page: seq<string>, pol: SitePolicy, bs: seq<SiteBlock>) {
    && (hook.Some? ==> PathReads(hook.value)) && page != [] && PageFits(page, app)
    && forall k :: 0 <= k < |es| ==>
         && es[k].On? && Enabling(app, es[k].hosts, hook, page)
         && BlockFits(app, es[k].hosts, hook, routable, page, pol, bs)
  }

  lemma MaintainableHolds(file: string, app: string, hook: Option<WebhookConfig>, pol: SitePolicy)
    returns (items: seq<Item>)
    requires Maintainable(file, app, hook, pol)
    ensures WellFormed(LinesOf(file)) && Holding(file, items, app, pol) && ForeignSites(file).Ok?
    ensures Shrunk(SitesOf(items), ForeignSites(file).value)
  {
    hide WellFormed, LinesOf, PlainFile, IsFile, OwnSites, ForeignSites, SitesOf, Shrunk, FileOpens, ExtractBlock,
      ExtractPolicy, TrimSpace, Settled, SingleLineTls, KeptAsIs, OwnAddresses;
    var raw := ItemsOfPlain(file);
    items := ReadFile(file, raw);
    OwnBelow(items, raw);
    ShrunkOfBelow(items, raw);
    SettledSpeaks(ExtractBlock(TrimSpace(file), app), app, hook);
    assert Finds(TrimSpace(file), app, pol) && Alike(pol, pol);
  }

  lemma RequestsFit(es: seq<Event>, file: string, app: string, hook: Option<WebhookConfig>, routable: string -> bool,
                    page: seq<string>, pol: SitePolicy, after: seq<SiteBlock>, bs: seq<SiteBlock>)
    requires Maintainable(file, app, hook, pol) && Shrunk(after, bs)
    requires Requests(es, app, hook, routable, page, pol, bs)
    ensures FittingSwitches(es, app, hook, routable, page, pol, after)
  {
    hide SwitchFits, Enabling, Shrunk, BlockFits, ForeignSites, PlainFile, OwnSites, ExtractBlock, ExtractPolicy,
      TrimSpace, Settled, SingleLineTls, KeptAsIs, FairSpans, PageFits, PathReads, LinesOf, GoodPolicy;
    ExtractedIsGood(ExtractBlock(TrimSpace(file), app));
    forall k | 0 <= k < |es| ensures SwitchFits(app, es[k].hosts, hook, routable, page, pol, after) {
      SwitchFitsAll(app, es[k].hosts, hook, routable, page, pol, bs);
      SwitchFitsShrunk(app, es[k].hosts, hook, routable, page, pol, after, bs);
    }
  }

  lemma SwitchFitsAll(app: string, hosts: seq<string>, hook: Option<WebhookConfig>, routable: string -> bool,
                      page: seq<string>, pol: SitePolicy, bs: seq<SiteBlock>)
    requires Enabling(app, hosts, hook, page) && (hook.Some? ==> PathReads(hook.value)) && PageFits(page, app)
    requires Carried(pol, app) && FairSpans(pol) && BlockFits(app, hosts, hook, routable, page, pol, bs)
    ensures SwitchFits(app, hosts, hook, routable, page, pol, bs)
  {
    hide Enabling, PathReads, PageFits, Carried, FairSpans, BlockFits, Fits, Stamped, MaintenanceBlock;
    forall generation: nat
      ensures Fits(BlockEdit(app, hosts, Stamped(generation, MaintenanceBlock(hosts, pol, routable, page)), hook), bs)
    {
      EnablingFits(generation, app, hosts, hook, routable, page, pol, bs);
    }
  }

  /** However often maintenance is enabled, and however each of those ends, the
      app's block carries the policy it had: the same access spans, and the same
      tls directive but for white space around it. */
  lemma PolicyStaysLive(s: SiteState, app: string, hook: Option<WebhookConfig>, routable: string -> bool,
                        page: seq<string>, pol: SitePolicy, es: seq<Event>)
    requires Maintainable(s.file, app, hook, pol)
    requires Requests(es, app, hook, routable, page, pol, ForeignSites(s.file).value)
    ensures var file := TrimSpace(After(s, app, hook, routable, page, es).file);
      exists p :: LivePolicy(file, app) == Ok(p) && p.access == pol.access && TrimSpace(p.tls) == TrimSpace(pol.tls)
  {
    hide Maintainable, PathReads, BlockFits, PageFits, ForeignSites, SitesOf, Shrunk, WellFormed, LinesOf, IsFile,
      OwnAddresses, After, TrimSpace, LivePolicy, SingleLineTls, KeptAsIs;
    var items := MaintainableHolds(s.file, app, hook, pol);
    RequestsFit(es, s.file, app, hook, routable, page, pol, SitesOf(items), ForeignSites(s.file).value);
    var after := SwitchRun(s, items, app, hook, routable, page, pol, es);
    var file := TrimSpace(After(s, app, hook, routable, page, es).file);
    var p :| Finds(file, app, p) && Alike(p, pol);
  }

  /** What an enabling for the hosts leaves live: they are answered 503 with the
      page. */
  ghost predicate Answers(block: string, hosts: seq<string>, pol: SitePolicy, routable: string -> bool,
                          page: seq<string>) {
    exists generation: nat, middle :: block ==
      Stamped(generation, JoinAddresses(SchemeHosts(hosts, TrimSpace(pol.tls), routable)) + " {" + "\n" + middle +
        Answer503(page))
  }

  lemma SwitchAnswers(s: SiteState, items: seq<Item>, app: string, hosts: seq<string>, hook: Option<WebhookConfig>,
                      routable: string -> bool, page: seq<string>, pol: SitePolicy)
    requires Holding(s.file, items, app, pol) && SwitchFits(app, hosts, hook, routable, page, pol, SitesOf(items))
    requires Enabling(app, hosts, hook, page) && (hook.Some? ==> PathReads(hook.value))
    ensures OnText(TrimSpace(s.file), app, hosts, hook, routable, page).Ok?
    ensures Answers(ExtractBlock(TrimSpace(OnStep(s, app, hosts, hook, routable, page, Commits).file), app), hosts, pol,
      routable, page)
  {
    hide WellFormed, LinesOf, IsFile, OwnAddresses, Shrunk, SitesOf, Finds, SwitchFits, PathReads, AdoptionSpares,
      OnBlock, OnText, OnStash, TrimSpace, Fits, Stamped, Answer503, JoinAddresses, SchemeHosts, ExtractBlock,
        ValidName,
      PageKept, Serving, OneLineHost, GoodPage, NoMarkers, GoodConfig;
    var prev := TrimSpace(s.file);
    Read(s.file);
    var p :| Finds(prev, app, p) && Alike(p, pol);
    var e := SwitchEdit(prev, items, app, hosts, hook, routable, page, pol, p);
    var rendered := RenderedFile(prev, items, e);
    var middle := EnablingServes(prev, app, hosts, hook, routable, page, p);
    var text := OnText(prev, app, hosts, hook, routable, page).value;
    var written := SwitchText(prev, items, app, hosts, hook, routable, page, pol, p);
    TrimmedReadsSame(text, app);
    ReadTwice(s.file);
  }

  /** Whatever came before, an enabling that commits puts the site into maintenance:
      its hosts are answered 503 with the page. */
  lemma MaintenanceAnswers(s: SiteState, app: string, hook: Option<WebhookConfig>, routable: string -> bool,
                           page: seq<string>, pol: SitePolicy, es: seq<Event>)
    requires Maintainable(s.file, app, hook, pol)
    requires Requests(es, app, hook, routable, page, pol, ForeignSites(s.file).value)
    requires es != [] && es[|es| - 1].fate.Commits?
    ensures Answers(ExtractBlock(TrimSpace(After(s, app, hook, routable, page, es).file), app), es[|es| - 1].hosts, pol,
      routable, page)
  {
    hide Maintainable, PathReads, BlockFits, PageFits, ForeignSites, SitesOf, Shrunk, WellFormed, LinesOf, Holding,
      OnStep, TrimSpace, Answers, Enabling, SwitchFits;
    var items := MaintainableHolds(s.file, app, hook, pol);
    RequestsFit(es, s.file, app, hook, routable, page, pol, SitesOf(items), ForeignSites(s.file).value);
    var front, last := es[..|es| - 1], es[|es| - 1];
    assert forall k :: 0 <= k < |front| ==> front[k] == es[k];
    var mid := SwitchRun(s, items, app, hook, routable, page, pol, front);
    var t := After(s, app, hook, routable, page, front);
    SwitchFitsShrunk(app, last.hosts, hook, routable, page, pol, SitesOf(mid), SitesOf(items));
    SwitchAnswers(t, mid, app, last.hosts, hook, routable, page, pol);
  }

  /** Maintenance is a round trip on the whole file: switched on any number of
      times, however each of those ends, and then off, the app's block is exactly
      what it was, every other app's region keeps its lines, and the markers are
      well formed all along. All that is asked is about the file it was first
      switched on in and the requests. */
  lemma MaintenanceRestoresTheFile(s: SiteState, app: string, hook: Option<WebhookConfig>, routable: string -> bool,
                                   page: seq<string>, pol: SitePolicy, es: seq<Event>)
    requires s.stash == None && es != [] && Maintainable(s.file, app, hook, pol)
    requires Requests(es, app, hook, routable, page, pol, ForeignSites(s.file).value)
    ensures var end := OffStep(After(s, app, hook, routable, page, es), app, hook, Commits, true);
      var file := TrimSpace(end.file);
      && end.stash == None && WellFormed(LinesOf(s.file)) && WellFormed(LinesOf(file))
      && ExtractBlock(file, app) == ExtractBlock(TrimSpace(s.file), app)
      && KeepsOthers(RegionsOf(LinesOf(file)), RegionsOf(LinesOf(s.file)), app)
  {
    hide PathReads, ForeignSites, SitesOf, Shrunk, WellFormed, LinesOf, After, TrimSpace, OffStep, PlainFile,
      OwnSites, Settled, RegionsOf, KeepsOthers, SingleLineTls, KeptAsIs, ExtractBlock, ExtractPolicy, SwitchFits,
      Holding, Sane, PageKept, Serving, Switches;
    var items := MaintainableHolds(s.file, app, hook, pol);
    RequestsFit(es, s.file, app, hook, routable, page, pol, SitesOf(items), ForeignSites(s.file).value);
    var after := SwitchRun(s, items, app, hook, routable, page, pol, es);
    assert Enabling(app, es[0].hosts, hook, page);
    SwitchedOffRestores(s, app, hook, routable, page, es);
  }
}
