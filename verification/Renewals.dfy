/** What a renewal of the webhook fragment finds in the file: the block that an
    edit gave the app, whatever other edits and renewals came in between
    (internal/caddy/webhook.go). */
module Renewals {
  import opened Wrappers
  import opened Text
  import opened TextLines
  import opened Regions
  import opened RegionLaws
  import opened RegionEdit
  import opened Render
  import opened Webhook
  import opened CaddyFile
  import Lock = CaddyLock

  /** Renewed, the block has no runs of empty lines and no newlines at its ends. */
  predicate Steady(block: string, app: string, hook: Option<WebhookConfig>) {
    var renewed := Renew(Bare(block), app, hook);
    renewed.Ok? ==> Bare(renewed.value) == renewed.value && NoRuns(BodyOf(renewed.value))
  }

  predicate Gives(e: RouteEdit, app: string, block: string, hosts: seq<string>) {
    e.Upsert? && e.upsert.app == app && e.upsert.block == block && e.upsert.hosts == hosts
  }

  /** A block of the app as the first file holds it, or as an edit gives it, with
      the hosts that edit takes over. */
  ghost predicate Given(edits: nat -> RouteEdit, log: seq<Lock.Write<string>>, init: string, app: string,
                        block: string, hosts: seq<string>) {
    || (block == ExtractBlock(init, app) && hosts == [])
    || exists n :: 0 <= n < |log| && Gives(edits(log[n].editor), app, block, hosts)
  }

  /** Every block that the app is given is steady, as it is written and as it is renewed. */
  ghost predicate SteadyRun(edits: nat -> RouteEdit, log: seq<Lock.Write<string>>, init: string, app: string)
    requires WellFormed(LinesOf(init))
  {
    && (app in RegionsOf(LinesOf(init)) ==> NoRuns(RegionsOf(LinesOf(init))[app]))
    && forall n :: 0 <= n < |log| ==>
      match edits(log[n].editor)
      case Upsert(b) => b.app == app ==> Steady(b.block, app, b.hook)
      case Renewal(a, hook) => a == app ==> forall t, hs :: Given(edits, log, init, app, t, hs) ==> Steady(t, app, hook)
  }

  /** The app's block, if there is one, renews as the given one. */
  ghost predicate RenewsAs(text: string, app: string, block: string)
    requires WellFormed(LinesOf(text))
  {
    && (app in RegionsOf(LinesOf(text)) ==> NoRuns(RegionsOf(LinesOf(text))[app]))
    && (ExtractBlock(text, app) == "" || Strip(ExtractBlock(text, app), app) == Strip(Bare(block), app))
  }

  lemma SteadyFront(edits: nat -> RouteEdit, log: seq<Lock.Write<string>>, init: string, app: string)
    requires WellFormed(LinesOf(init)) && log != [] && SteadyRun(edits, log, init, app)
    ensures SteadyRun(edits, log[..|log| - 1], init, app)
  {
    hide Steady, ExtractBlock, WellFormed, RegionsOf, LinesOf, NoRuns;
    var front := log[..|log| - 1];
    forall t, hs | Given(edits, front, init, app, t, hs) ensures Given(edits, log, init, app, t, hs) {
      GivenMore(edits, log, init, app, t, hs);
    }
    forall n | 0 <= n < |front|
      ensures match edits(front[n].editor)
              case Upsert(b) => b.app == app ==> Steady(b.block, app, b.hook)
              case Renewal(a, hook) => a == app ==> forall t, hs :: Given(edits, front, init, app, t, hs) ==>
                Steady(t, app, hook)
    {
      assert front[n] == log[n];
    }
  }

  lemma GivenMore(edits: nat -> RouteEdit, log: seq<Lock.Write<string>>, init: string, app: string, t: string,
                  hosts: seq<string>)
    requires log != [] && Given(edits, log[..|log| - 1], init, app, t, hosts)
    ensures Given(edits, log, init, app, t, hosts)
  {
    hide ExtractBlock;
    var front := log[..|log| - 1];
    assert forall n :: 0 <= n < |front| ==> front[n] == log[n];
  }

  /** A region that another edit left alone. */
  lemma KeptRenews(text: string, before: string, app: string, block: string)
    requires WellFormed(LinesOf(text)) && WellFormed(LinesOf(before)) && ValidName(app) && RenewsAs(before, app, block)
    requires var now, was := RegionsOf(LinesOf(text)), RegionsOf(LinesOf(before));
      app in now ==> app in was && (now[app] == was[app] || now[app] == SqueezeLines(was[app], 1))
    ensures RenewsAs(text, app, block)
  {
    hide WellFormed, RegionsOf, LinesOf, ValidName, ExtractBlock, NoRuns, SqueezeLines, Strip, Trim, Unlines;
    ExtractReadsRegion(text, app);
    ExtractReadsRegion(before, app);
    if app in RegionsOf(LinesOf(text)) {
      SqueezeNoRuns(RegionsOf(LinesOf(before))[app], 1);
    }
  }

  /** A region that holds a renewal of the block. */
  lemma WrittenRenews(text: string, app: string, block: string, hook: Option<WebhookConfig>)
    requires WellFormed(LinesOf(text)) && ValidName(app) && Steady(block, app, hook)
    requires Renew(Bare(block), app, hook).Ok? && (hook.Some? ==> GoodConfig(hook.value))
    requires var body := BodyOf(Renew(Bare(block), app, hook).value); var now := RegionsOf(LinesOf(text));
      app in now && (now[app] == body || now[app] == SqueezeLines(body, 1))
    ensures RenewsAs(text, app, block)
  {
    hide WellFormed, RegionsOf, LinesOf, ValidName, ExtractBlock, NoRuns, SqueezeLines, Strip, Trim, Unlines, BodyOf,
      Renew, GoodConfig;
    var r := Renew(Bare(block), app, hook).value;
    SqueezeNoRuns(BodyOf(r), 1);
    ExtractReadsRegion(text, app);
    WrittenBlockReadsBack(r);
    StripOfRenewed(Bare(block), app, hook);
  }

  lemma BlankRenews(text: string, app: string, block: string)
    requires WellFormed(LinesOf(text)) && ValidName(app) && Bare(block) == ""
    requires var now := RegionsOf(LinesOf(text));
      app in now && (now[app] == BodyOf(block) || now[app] == SqueezeLines(BodyOf(block), 1))
    ensures RenewsAs(text, app, block)
  {
    hide WellFormed, RegionsOf, LinesOf, ValidName, ExtractBlock, Strip, Trim, Unlines;
    BlankBody(block);
    ExtractReadsRegion(text, app);
    WrittenBlockReadsBack(block);
  }

  lemma BlankBody(block: string)
    requires Bare(block) == ""
    ensures BodyOf(block) == [""] && NoRuns([""]) && SqueezeLines([""], 1) == [""]
  {
    hide Trim, SqueezeLines;
    NewlinesOnly(block);
    SplitTrimRight(block);
    SplitEmpty();
    SqueezeNoRuns([""], 1);
  }

  lemma NewlinesOnly(block: string)
    requires Bare(block) == ""
    ensures TrimRight(block, IsNewline) == ""
  {
    var a, c := TrimParts(block, IsNewline);
    assert block == a + c;
  }

  // ---- one edit ----

  /** An upsert of the app gives it a new block, or none. */
  lemma UpsertRenews(prev: string, b: BlockEdit, seen: string)
    requires WellFormed(LinesOf(prev)) && WellFormed(LinesOf(seen)) && GoodEdit(b) && Steady(b.block, b.app, b.hook)
    requires b.block != "" && Bare(b.block) != "" ==> Renew(Bare(b.block), b.app, b.hook).Ok?
    requires NearRegions(RegionsOf(LinesOf(seen)),
      MeantBy(RegionsOf(LinesOf(prev)), b, LegacyGoes(prev, b.app, b.hosts)))
    ensures RenewsAs(seen, b.app, b.block)
  {
    hide WellFormed, RegionsOf, LinesOf, ValidName, ExtractBlock, LegacyGoes, Steady, NoMarkers, GoodConfig, RenewsAs,
      SqueezeLines, BodyOf, Renew, Trim;
    if b.block == "" {
      NoRegionRenews(seen, b.app, b.block);
    } else if Bare(b.block) == "" {
      BlankRenews(seen, b.app, b.block);
    } else {
      WrittenRenews(seen, b.app, b.block, b.hook);
    }
  }

  lemma UpsertOk(prev: string, b: BlockEdit)
    requires WellFormed(LinesOf(prev)) && GoodEdit(b) && AdoptionSpares(prev, b.app, b.hosts) &&
      ApplyManaged(prev, b).Ok?
    ensures b.block != "" && Bare(b.block) != "" ==> Renew(Bare(b.block), b.app, b.hook).Ok?
  {
    hide WellFormed, RegionsOf, LinesOf, Outside, RemoveBlock, ValidName, LegacyGoes, RenderUpdated, PutBlock, BodyOf,
      NoMarkers, ExtractBlock, Renew, Trim, GoodConfig, AdoptionSpares, Unlines;
    RenderKeeps(prev, b.app, b.hosts, b.block);
    ExtractReadsRegion(RenderUpdated(prev, b.app, b.hosts, b.block).value, b.app);
    WrittenBlockReadsBack(b.block);
  }

  lemma NoRegionRenews(text: string, app: string, block: string)
    requires WellFormed(LinesOf(text)) && ValidName(app) && app !in RegionsOf(LinesOf(text))
    ensures RenewsAs(text, app, block)
  {
    hide WellFormed, RegionsOf, LinesOf, ValidName, ExtractBlock;
    ExtractReadsRegion(text, app);
  }

  /** A renewal renews what it found. */
  lemma RenewalRenews(prev: string, app: string, hook: Option<WebhookConfig>, seen: string, block: string)
    requires WellFormed(LinesOf(prev)) && WellFormed(LinesOf(seen)) && ValidName(app)
    requires (hook.Some? ==> GoodConfig(hook.value)) && Steady(block, app, hook) && RenewsAs(prev, app, block)
    requires ApplyWebhook(prev, app, hook).Ok?
    requires NearRegions(RegionsOf(LinesOf(seen)), RenewedRegions(RegionsOf(LinesOf(prev)), prev, app, hook))
    ensures RenewsAs(seen, app, block)
  {
    hide WellFormed, RegionsOf, LinesOf, ValidName, ExtractBlock, Steady, GoodConfig, SqueezeLines, BodyOf, Strip,
      Inject,
      RemoveBlock, PutBlock, Trim, NoRuns;
    if ExtractBlock(prev, app) == "" {
      KeptRenews(seen, prev, app, block);
    } else {
      WrittenRenews(seen, app, block, hook);
    }
  }

  /** So every edit of the app, and every other edit, leaves it a block given. */
  lemma StepRenews(edits: nat -> RouteEdit, log: seq<Lock.Write<string>>, init: string, seen: string, app: string,
                   given: string, freed: seq<string>) returns (block: string, hosts: seq<string>)
    requires WellFormed(LinesOf(init)) && log != [] && ValidName(app) && SteadyRun(edits, log, init, app)
    requires var last := log[|log| - 1]; var e := edits(last.editor);
      && WellFormed(LinesOf(last.before)) && GoodRoute(e) && Spares(last.before, e)
      && ApplyRoute(last.before, e) == Ok(last.after) && seen == TrimSpace(last.after)
      && Given(edits, log[..|log| - 1], init, app, given, freed) && RenewsAs(last.before, app, given)
    ensures WellFormed(LinesOf(seen)) && Given(edits, log, init, app, block, hosts) && RenewsAs(seen, app, block)
  {
    hide WellFormed, RegionsOf, LinesOf, ValidName, ExtractBlock, LegacyGoes, Steady, NoMarkers, GoodConfig, RenewsAs,
      Given, ApplyManaged, ApplyWebhook, TrimSpace, AdoptionSpares, WrittenBody, RenewedBody, NoRuns, GoodEdit,
      SqueezeLines;
    var last := log[|log| - 1];
    var prev, e := last.before, edits(last.editor);
    RouteStep(prev, e, last.after);
    GivenMore(edits, log, init, app, given, freed);
    block, hosts := given, freed;
    match e {
      case Upsert(b) =>
        if b.app == app {
          block, hosts := b.block, b.hosts;
          GivenLast(edits, log, init, app);
          UpsertOk(prev, b);
          UpsertRenews(prev, b, seen);
        } else {
          KeptRenews(seen, prev, app, given);
        }
      case Renewal(a, hook) =>
        if a == app {
          RenewalRenews(prev, app, hook, seen, given);
        } else {
          KeptRenews(seen, prev, app, given);
        }
    }
  }

  lemma GivenLast(edits: nat -> RouteEdit, log: seq<Lock.Write<string>>, init: string, app: string)
    requires log != [] && var e := edits(log[|log| - 1].editor); e.Upsert? && e.upsert.app == app
    ensures var b := edits(log[|log| - 1].editor).upsert; Given(edits, log, init, app, b.block, b.hosts)
  {
    hide ExtractBlock;
    var b := edits(log[|log| - 1].editor).upsert;
    assert Gives(edits(log[|log| - 1].editor), app, b.block, b.hosts);
  }

  // ---- any run ----

  /** Whatever edits a run made, an app's block renews as one that the first file or
      an edit gave it: a renewal needs no more than those blocks do. */
  lemma {:induction false} BlockRenews(edits: nat -> RouteEdit, cas: (nat, string) -> bool, init: string,
                                       log: seq<Lock.Write<string>>, seen: string, app: string)
    returns (block: string, hosts: seq<string>)
    requires WellFormed(LinesOf(init)) && Tame(edits, log) && Lock.Chain(RulesFor(edits, cas), init, log, seen)
    requires ValidName(app) && SteadyRun(edits, log, init, app)
    ensures WellFormed(LinesOf(seen)) && Given(edits, log, init, app, block, hosts) && RenewsAs(seen, app, block)
    decreases |log|
  {
    hide WellFormed, RegionsOf, LinesOf, ValidName, SteadyRun, RenewsAs, Given, GoodRoute, Spares, ApplyRoute,
      TrimSpace,
      ExtractBlock;
    if log == [] {
      Read(init);
      block, hosts := ExtractBlock(init, app), [];
      FirstRenews(edits, init, app);
      assert seen == TrimSpace(init);
    } else {
      hide Lock.Chain;
      var front := log[..|log| - 1];
      ChainParts(edits, cas, init, log, seen);
      SteadyFront(edits, log, init, app);
      TameFront(edits, log);
      var given, freed := BlockRenews(edits, cas, init, front, log[|log| - 1].before, app);
      block, hosts := StepRenews(edits, log, init, seen, app, given, freed);
    }
  }

  lemma TameFront(edits: nat -> RouteEdit, log: seq<Lock.Write<string>>)
    requires log != [] && Tame(edits, log)
    ensures Tame(edits, log[..|log| - 1])
    ensures var last := log[|log| - 1]; GoodRoute(edits(last.editor)) && Spares(last.before, edits(last.editor))
  {
    hide GoodRoute, Spares;
    var front := log[..|log| - 1];
    assert forall n :: 0 <= n < |front| ==> front[n] == log[n];
  }

  lemma FirstRenews(edits: nat -> RouteEdit, init: string, app: string)
    requires WellFormed(LinesOf(init)) && ValidName(app) && SteadyRun(edits, [], init, app)
    ensures WellFormed(LinesOf(TrimSpace(init))) && RenewsAs(TrimSpace(init), app, ExtractBlock(init, app))
    ensures Given(edits, [], init, app, ExtractBlock(init, app), [])
  {
    hide WellFormed, RegionsOf, LinesOf, ValidName, Strip, NoRuns, Trim, Unlines;
    Read(init);
    ExtractReadsRegion(init, app);
    ExtractReadsRegion(TrimSpace(init), app);
    if app in RegionsOf(LinesOf(init)) {
      BareTwice(Unlines(RegionsOf(LinesOf(init))[app]));
    } else {
      BareOfNothing();
    }
  }

  lemma BareTwice(s: string)
    ensures Bare(Bare(s)) == Bare(s)
  {
    hide TrimLeft, TrimRight;
    TrimEnds(s, IsNewline);
    TrimTrimmed(Bare(s), IsNewline);
  }
}
