/** The Caddyfile after any run of concurrent edits: the commit protocol and the
    text transformation together (internal/caddy/caddy.go, webhook.go). */
module CaddyFile {
  import opened Wrappers
  import opened Text
  import opened TextLines
  import opened Regions
  import opened RegionLaws
  import opened RegionEdit
  import opened Routes
  import opened RouteItems
  import opened Adoption
  import opened AdoptionExact
  import opened Render
  import opened Webhook
  import opened FileEdits
  import Lock = CaddyLock

  /** An upsert of an app's managed block (an empty block removes it), with the
      webhook descriptor persisted for the app. */
  datatype BlockEdit = BlockEdit(app: string, hosts: seq<string>, block: string, hook: Option<WebhookConfig>)

  // ---- renewing the fragment in the file ----

  function ApplyWebhook(content: string, app: string, hook: Option<WebhookConfig>): Result<string, EditError> {
    var block := ExtractBlock(content, app);
    if block == "" then Ok(content)
    else match Renew(block, app, hook)
      case Err(e) => Err(e)
      case Ok(renewed) =>
        match RemoveBlock(content, app)
        case Err(e) => Err(BadMarkers(e))
        case Ok(updated) => Ok(PutBlock(updated, app, renewed))
  }

  function ApplyManaged(prev: string, e: BlockEdit): Result<string, EditError> {
    match RenderUpdated(prev, e.app, e.hosts, e.block)
    case Err(err) => Err(err)
    case Ok(updated) => ApplyWebhook(updated, e.app, e.hook)
  }

  // ---- the body an edit writes ----

  /** The block's text as the second half of the edit reads it back. */
  function Bare(block: string): string { Trim(block, IsNewline) }

  /** The body the app's region has after a successful edit that writes a block. */
  function WrittenBody(e: BlockEdit): seq<string> {
    if Bare(e.block) == "" then BodyOf(e.block)
    else
      var renewed := Renew(Bare(e.block), e.app, e.hook);
      if renewed.Ok? then BodyOf(renewed.value) else BodyOf(e.block)
  }

  function MeantBy(regions: map<string, seq<string>>, e: BlockEdit, legacyGoes: bool): map<string, seq<string>> {
    var others := regions - (if legacyGoes then {e.app, "lb-" + e.app} else {e.app});
    if e.block == "" then others else others[e.app := WrittenBody(e)]
  }

  /** An edit as its callers make it: a valid app name, and no marker lines of its
      own in the block. */
  predicate GoodEdit(e: BlockEdit) {
    ValidName(e.app) && NoMarkers(LinesOf(e.block)) && (e.hook.Some? ==> GoodConfig(e.hook.value))
  }

  lemma PlainIfNoHash(l: string)
    requires TrimSpace(l) == "" || TrimSpace(l)[0] != '#'
    ensures MarkOf(l) == Plain
  {
    TrimSpaceOfTrimSuffix(l);
    assert BEGIN_PREFIX[0] == '#' && END_PREFIX[0] == '#';
  }

  lemma HookLineIsPlain(prefix: string, app: string)
    requires ValidName(app) && (prefix == HOOK_BEGIN || prefix == HOOK_END)
    ensures MarkOf("\t" + prefix + app) == Plain
  {
    hide ValidName, Trim;
    HookTrims(app);
    PlainByTenth("\t" + prefix + app, prefix + app);
  }

  lemma PlainByTenth(l: string, t: string)
    requires TrimSpace(l) == t && |t| > 9 && t[9] != 'B' && t[9] != 'E'
    ensures MarkOf(l) == Plain
  {
    hide ValidName, Trim, TrimPrefix;
    TrimSpaceOfTrimSuffix(l);
    assert BEGIN_PREFIX[9] == 'B' && END_PREFIX[9] == 'E';
  }

  lemma FragmentHasNoMarkers(app: string, cfg: WebhookConfig)
    requires ValidName(app) && GoodConfig(cfg)
    ensures NoMarkers(FragmentLines(app, cfg))
  {
    hide ValidName, MarkOf, Digits, TrimSpace;
    HookLineIsPlain(HOOK_BEGIN, app);
    HookLineIsPlain(HOOK_END, app);
    var f := FragmentLines(app, cfg);
    IndentedHead(f[1]);
    IndentedHead(f[2]);
    IndentedHead(f[3]);
    ClosingBrace();
    IndentedHead(f[5]);
    IndentedHead(f[6]);
    forall i | 1 <= i < 8 ensures MarkOf(f[i]) == Plain {
      PlainIfNoHash(f[i]);
    }
    forall l | l in f ensures MarkOf(l) == Plain {
      var i :| 0 <= i < |f| && f[i] == l;
      assert i == 0 || i == 8 || 1 <= i < 8;
    }
  }

  lemma {:induction false} NoMarkersSqueezed(ls: seq<string>, n: nat)
    requires NoMarkers(ls)
    ensures NoMarkers(SqueezeLines(ls, n))
  {
    hide MarkOf;
    SqueezedMembers(ls, n);
  }

  lemma StripHasNoMarkers(block: string, app: string)
    requires NoMarkers(LinesOf(block))
    ensures NoMarkers(LinesOf(Strip(block, app)))
  {
    hide MarkOf, LinesOf, OpensHook, ClosesHook, StripLines;
    var kept := StripLines(LinesOf(block), app, false);
    StrippedIsFree(LinesOf(block), app, false);
    LinesOfText(block);
    if kept == [] {
      SplitEmpty();
      EmptyIsPlain();
      assert Strip(block, app) == "" by { NothingCollapses(); }
    } else {
      LinesOfUnlines(kept);
      SplitSqueeze(Unlines(kept), 0);
      NoMarkersSqueezed(Front(kept), 0);
    }
  }

  lemma RenewHasNoMarkers(block: string, app: string, hook: Option<WebhookConfig>)
    requires ValidName(app) && NoMarkers(LinesOf(block)) && (hook.Some? ==> GoodConfig(hook.value))
    requires Renew(block, app, hook).Ok?
    ensures NoMarkers(LinesOf(Renew(block, app, hook).value))
  {
    hide MarkOf, LinesOf, ValidName, FragmentLines, OpeningLine, Strip;
    StripHasNoMarkers(block, app);
    if hook.Some? {
      LinesOfInjected(Strip(block, app), app, hook.value);
      FragmentHasNoMarkers(app, hook.value);
    }
  }

  lemma BareHasNoMarkers(block: string)
    requires NoMarkers(LinesOf(block))
    ensures NoMarkers(LinesOf(Bare(block)))
  {
    hide MarkOf, LinesOf, TrimLeft, TrimRight;
    var l := TrimLeft(block, IsNewline);
    SplitTrimRight(l);
    TrimLeftLines(block);
    forall x | x in TrimRightLines(LinesOf(l)) ensures MarkOf(x) == Plain {
      assert x in LinesOf(l);
    }
  }

  lemma {:induction false} TrimLeftLines(s: string)
    ensures forall l :: l in LinesOf(TrimLeft(s, IsNewline)) ==> l in LinesOf(s)
  {
    if s != "" && s[0] == '\n' {
      TrimLeftLines(s[1..]);
    }
  }

  // ---- one managed edit ----

  lemma MeantDiffers(regions: map<string, seq<string>>, e: BlockEdit, goes: bool, written: map<string, seq<string>>,
                     removed: map<string, seq<string>>)
    requires e.block != "" && NearRegions(written, Meant(regions, e.app, goes, e.block)) &&
      NearRegions(removed, written - {e.app})
    ensures NearRegions(removed[e.app := WrittenBody(e)], MeantBy(regions, e, goes))
  {
    hide BodyOf, WrittenBody, SqueezeLines;
    var others := regions - (if goes then {e.app, "lb-" + e.app} else {e.app});
    assert Meant(regions, e.app, goes, e.block) - {e.app} == others;
    NearWithout(written, Meant(regions, e.app, goes, e.block), e.app);
    NearTrans(removed, written - {e.app}, others);
  }

  lemma BareOfNothing()
    ensures Bare("") == ""
  {
  }

  /** Where adoption runs through, the one thing that can stop a managed edit is a
      block with no site to put the webhook fragment in. */
  lemma ManagedEditSucceedsIff(prev: string, e: BlockEdit)
    requires WellFormed(LinesOf(prev)) && GoodEdit(e) && AdoptionSpares(prev, e.app, e.hosts)
    ensures ApplyManaged(prev, e).Ok? <==>
      Bare(e.block) == "" || e.hook.None? || OpensSite(LinesOf(Strip(Bare(e.block), e.app)))
  {
    hide WellFormed, RegionsOf, LinesOf, Outside, RemoveBlock, ValidName, LegacyGoes, RenderUpdated, PutBlock, BodyOf,
      NoMarkers, ExtractBlock, Renew, Trim, GoodConfig, AdoptionSpares, Unlines, OpensSite, Strip;
    RenderKeeps(prev, e.app, e.hosts, e.block);
    var r := RenderUpdated(prev, e.app, e.hosts, e.block).value;
    ExtractReadsRegion(r, e.app);
    RenewsIff(Bare(e.block), e.app, e.hook);
    if e.block != "" {
      WrittenBlockReadsBack(e.block);
      RemoveNear(r, e.app);
    } else {
      BareOfNothing();
    }
  }

  /** And a renewal on its own likewise. */
  lemma RenewalSucceedsIff(content: string, app: string, hook: Option<WebhookConfig>)
    requires WellFormed(LinesOf(content)) && ValidName(app)
    ensures ApplyWebhook(content, app, hook).Ok? <==>
      || ExtractBlock(content, app) == "" || hook.None?
      || OpensSite(LinesOf(Strip(ExtractBlock(content, app), app)))
  {
    hide WellFormed, RegionsOf, LinesOf, RemoveBlock, ValidName, PutBlock, ExtractBlock, Renew, OpensSite, Strip;
    RenewsIff(ExtractBlock(content, app), app, hook);
    RemoveNear(content, app);
  }

  /** A managed edit that succeeds leaves the file well formed, with exactly the
      block it wrote (webhook fragment renewed) as the app's region, and every
      other region but a proven legacy one as it was. */
  lemma ManagedEditKeeps(prev: string, e: BlockEdit)
    requires WellFormed(LinesOf(prev)) && GoodEdit(e) && AdoptionSpares(prev, e.app, e.hosts)
    requires ApplyManaged(prev, e).Ok?
    ensures var after := LinesOf(ApplyManaged(prev, e).value);
      && WellFormed(after)
      && NearRegions(RegionsOf(after), MeantBy(RegionsOf(LinesOf(prev)), e, LegacyGoes(prev, e.app, e.hosts)))
      && (e.block != "" ==> e.app in RegionsOf(after) && RegionsOf(after)[e.app] == WrittenBody(e))
  {
    hide WellFormed, RegionsOf, LinesOf, Outside, RemoveBlock, ValidName, LegacyGoes, RenderUpdated, PutBlock, BodyOf,
      NoMarkers, ExtractBlock, Renew, Trim, GoodConfig, AdoptionSpares, Unlines;
    RenderKeeps(prev, e.app, e.hosts, e.block);
    var r := RenderUpdated(prev, e.app, e.hosts, e.block).value;
    ExtractReadsRegion(r, e.app);
    if e.block != "" {
      WrittenBlockReadsBack(e.block);
      if Bare(e.block) != "" {
        RemoveNear(r, e.app);
        BareHasNoMarkers(e.block);
        RenewHasNoMarkers(Bare(e.block), e.app, e.hook);
        PutBlockKeeps(RemoveBlock(r, e.app).value, e.app, Renew(Bare(e.block), e.app, e.hook).value);
        MeantDiffers(RegionsOf(LinesOf(prev)), e, LegacyGoes(prev, e.app, e.hosts), RegionsOf(LinesOf(r)),
          RegionsOf(LinesOf(RemoveBlock(r, e.app).value)));
      }
    }
  }

  // ---- renewing the fragment alone ----

  /** No body of a region holds a marker. */
  ghost predicate PlainBodies(st: Scan) {
    st.Scan? ==> NoMarkers(st.body) && forall a :: a in st.regions ==> NoMarkers(st.regions[a])
  }

  lemma {:induction false} BodiesArePlain(st: Scan, ls: seq<string>)
    requires PlainBodies(st)
    ensures PlainBodies(ScanLines(st, ls))
    decreases |ls|
  {
    hide MarkOf;
    if ls != [] {
      BodiesArePlain(ScanStep(st, ls[0]), ls[1..]);
    }
  }

  /** No body of a region holds a newline. */
  lemma {:induction false} BodiesAreLines(st: Scan, ls: seq<string>)
    requires st.Scan? && forall l :: l in ls ==> '\n' !in l
    requires (forall l :: l in st.body ==> '\n' !in l) && forall a, l :: a in st.regions && l in st.regions[a] ==>
      '\n' !in l
    ensures var end := ScanLines(st, ls);
      end.Scan? ==> forall a, l :: a in end.regions && l in end.regions[a] ==> '\n' !in l
    decreases |ls|
  {
    hide MarkOf;
    if ls != [] {
      assert ls[0] in ls && forall l :: l in ls[1..] ==> l in ls;
      if ScanStep(st, ls[0]).Scan? {
        BodiesAreLines(ScanStep(st, ls[0]), ls[1..]);
      } else {
        MalformedStays(ls[1..]);
      }
    }
  }

  lemma ExtractedHasNoMarkers(content: string, app: string)
    requires WellFormed(LinesOf(content)) && ValidName(app)
    ensures NoMarkers(LinesOf(ExtractBlock(content, app)))
  {
    hide MarkOf, LinesOf, ValidName, Unlines, ExtractBlock, Trim;
    ExtractReadsRegion(content, app);
    LinesOfText(content);
    BodiesArePlain(START, LinesOf(content));
    BodiesAreLines(START, LinesOf(content));
    EmptyIsPlain();
    SplitEmpty();
    var regions := RegionsOf(LinesOf(content));
    if app in regions && regions[app] != [] {
      LinesOfUnlines(regions[app]);
      BareHasNoMarkers(Unlines(regions[app]));
    } else {
      NothingIsBare();
    }
  }

  lemma NothingIsBare()
    ensures Bare(Unlines([])) == ""
  {
  }

  /** The body of the app's region once the fragment in its block is renewed. */
  function RenewedBody(prev: string, app: string, hook: Option<WebhookConfig>): seq<string> {
    var renewed := Renew(ExtractBlock(prev, app), app, hook);
    if renewed.Ok? then BodyOf(renewed.value) else []
  }

  function RenewedRegions(regions: map<string, seq<string>>, prev: string, app: string,
                          hook: Option<WebhookConfig>): map<string, seq<string>> {
    if ExtractBlock(prev, app) == "" then regions else regions[app := RenewedBody(prev, app, hook)]
  }

  /** Renewing alone, when a descriptor is set or removed, rewrites the app's own
      region and leaves every other one. */
  lemma RenewalKeeps(prev: string, app: string, hook: Option<WebhookConfig>)
    requires WellFormed(LinesOf(prev)) && ValidName(app) && (hook.Some? ==> GoodConfig(hook.value))
    requires ApplyWebhook(prev, app, hook).Ok?
    ensures var after := LinesOf(ApplyWebhook(prev, app, hook).value);
      WellFormed(after) && NearRegions(RegionsOf(after), RenewedRegions(RegionsOf(LinesOf(prev)), prev, app, hook))
  {
    hide WellFormed, RegionsOf, LinesOf, Outside, RemoveBlock, ValidName, PutBlock, BodyOf, NoMarkers, ExtractBlock,
      Renew, GoodConfig, SqueezeLines;
    var block := ExtractBlock(prev, app);
    if block != "" {
      ExtractedHasNoMarkers(prev, app);
      RenewHasNoMarkers(block, app, hook);
      RemoveNear(prev, app);
      PutBlockKeeps(RemoveBlock(prev, app).value, app, Renew(block, app, hook).value);
    }
  }

  // ---- every edit ----

  /** What the client does to the routes: upsert an app's block, or renew the
      fragment in the block there is, after its descriptor was set or removed. */
  datatype RouteEdit = Upsert(upsert: BlockEdit) | Renewal(renewed: string, hook: Option<WebhookConfig>)

  function ApplyRoute(prev: string, e: RouteEdit): Result<string, EditError> {
    match e
    case Upsert(b) => ApplyManaged(prev, b)
    case Renewal(app, hook) => ApplyWebhook(prev, app, hook)
  }

  /** The regions there were after an edit of the text. */
  function Means(regions: map<string, seq<string>>, e: RouteEdit, prev: string): map<string, seq<string>> {
    match e
    case Upsert(b) => MeantBy(regions, b, LegacyGoes(prev, b.app, b.hosts))
    case Renewal(app, hook) => RenewedRegions(regions, prev, app, hook)
  }

  function AppOf(e: RouteEdit): string { if e.Upsert? then e.upsert.app else e.renewed }

  /** An edit that leaves the app a block, and that block's body. */
  predicate Writes(e: RouteEdit, prev: string) {
    match e
    case Upsert(b) => b.block != ""
    case Renewal(app, _) => ExtractBlock(prev, app) != ""
  }

  function BodyBy(e: RouteEdit, prev: string): seq<string> {
    match e
    case Upsert(b) => WrittenBody(b)
    case Renewal(app, hook) => RenewedBody(prev, app, hook)
  }

  /** An edit that may rewrite or remove the app's region. */
  predicate Concerns(e: RouteEdit, app: string) { AppOf(e) == app || (e.Upsert? && "lb-" + AppOf(e) == app) }

  predicate GoodRoute(e: RouteEdit) {
    match e
    case Upsert(b) => GoodEdit(b)
    case Renewal(app, hook) => ValidName(app) && (hook.Some? ==> GoodConfig(hook.value))
  }

  /** Adoption, if the edit adopts, leaves the managed regions. */
  ghost predicate Spares(prev: string, e: RouteEdit) {
    e.Upsert? ==> AdoptionSpares(prev, e.upsert.app, e.upsert.hosts)
  }

  // ---- any run of edits ----

  /** Edits, by editor; what the protocol allows is what they compute. */
  function RulesFor(edits: nat -> RouteEdit, cas: (nat, string) -> bool): Lock.Rules<string> {
    Lock.Rules((i: nat, before: string, after: string) => ApplyRoute(before, edits(i)) == Ok(after), cas, TrimSpace)
  }

  lemma ReadsOnce(edits: nat -> RouteEdit, cas: (nat, string) -> bool)
    ensures Lock.Idempotent(RulesFor(edits, cas))
  {
    hide TrimSpace;
    forall s: string ensures TrimSpace(TrimSpace(s)) == TrimSpace(s) {
      ReadTwice(s);
    }
  }

  /** The regions the edits of a log mean, from the ones there were. */
  function Intended(edits: nat -> RouteEdit, log: seq<Lock.Write<string>>,
                    start: map<string, seq<string>>): map<string, seq<string>> {
    if log == [] then start
    else
      var last := log[|log| - 1];
      Means(Intended(edits, log[..|log| - 1], start), edits(last.editor), last.before)
  }

  /** Every edit of the log is a good one, and its adoption of foreign blocks
      leaves the managed regions. */
  ghost predicate Tame(edits: nat -> RouteEdit, log: seq<Lock.Write<string>>) {
    forall n :: 0 <= n < |log| ==> GoodRoute(edits(log[n].editor)) && Spares(log[n].before, edits(log[n].editor))
  }

  lemma MeansNear(b: map<string, seq<string>>, a: map<string, seq<string>>, e: RouteEdit, prev: string)
    requires NearRegions(b, a)
    ensures NearRegions(Means(b, e, prev), Means(a, e, prev))
  {
    hide WrittenBody, RenewedBody, ExtractBlock, LegacyGoes, SqueezeLines;
  }

  lemma ChainParts(edits: nat -> RouteEdit, cas: (nat, string) -> bool, init: string, log: seq<Lock.Write<string>>,
                   seen: string)
    requires log != [] && Lock.Chain(RulesFor(edits, cas), init, log, seen)
    ensures var last := log[|log| - 1];
      && ApplyRoute(last.before, edits(last.editor)) == Ok(last.after) && seen == TrimSpace(last.after)
      && Lock.Chain(RulesFor(edits, cas), init, log[..|log| - 1], last.before)
  {
    hide ApplyRoute;
  }

  lemma EditStep(prev: string, e: BlockEdit, after: string)
    requires WellFormed(LinesOf(prev)) && GoodEdit(e) && AdoptionSpares(prev, e.app, e.hosts) &&
      ApplyManaged(prev, e) == Ok(after)
    ensures WellFormed(LinesOf(TrimSpace(after)))
    ensures NearRegions(RegionsOf(LinesOf(TrimSpace(after))),
      MeantBy(RegionsOf(LinesOf(prev)), e, LegacyGoes(prev, e.app, e.hosts)))
  {
    hide WellFormed, RegionsOf, LinesOf, MeantBy, AdoptionSpares, ApplyManaged, GoodEdit, LegacyGoes, NearRegions;
    ManagedEditKeeps(prev, e);
    Read(after);
  }

  /** When an edit of a run goes through. */
  lemma RouteSucceedsIff(prev: string, e: RouteEdit)
    requires WellFormed(LinesOf(prev)) && GoodRoute(e) && Spares(prev, e)
    ensures ApplyRoute(prev, e).Ok? <==> match e
      case Upsert(b) => Bare(b.block) == "" || b.hook.None? || OpensSite(LinesOf(Strip(Bare(b.block), b.app)))
      case Renewal(app, hook) =>
        var block := ExtractBlock(prev, app);
        block == "" || hook.None? || OpensSite(LinesOf(Strip(block, app)))
  {
    hide WellFormed, LinesOf, ValidName, ExtractBlock, ApplyManaged, ApplyWebhook, GoodEdit, AdoptionSpares, Strip,
      Trim,
      OpensSite, GoodConfig;
    match e {
      case Upsert(b) => ManagedEditSucceedsIff(prev, b);
      case Renewal(app, hook) => RenewalSucceedsIff(prev, app, hook);
    }
  }

  lemma RouteStep(prev: string, e: RouteEdit, after: string)
    requires WellFormed(LinesOf(prev)) && GoodRoute(e) && Spares(prev, e) && ApplyRoute(prev, e) == Ok(after)
    ensures WellFormed(LinesOf(TrimSpace(after)))
    ensures NearRegions(RegionsOf(LinesOf(TrimSpace(after))), Means(RegionsOf(LinesOf(prev)), e, prev))
  {
    hide WellFormed, RegionsOf, LinesOf, MeantBy, RenewedRegions, AdoptionSpares, ApplyManaged, ApplyWebhook, GoodEdit,
      LegacyGoes, NearRegions, ValidName, GoodConfig, TrimSpace;
    match e {
      case Upsert(b) => EditStep(prev, b, after);
      case Renewal(app, hook) =>
        RenewalKeeps(prev, app, hook);
        Read(after);
    }
  }

  /** After any chain of successful edits the markers are well formed and every
      app's region is what its last edit wrote, but for runs of empty lines. */
  lemma {:induction false} EditRunEnds(edits: nat -> RouteEdit, cas: (nat, string) -> bool, init: string,
                                       log: seq<Lock.Write<string>>, seen: string)
    requires WellFormed(LinesOf(init)) && Tame(edits, log)
    requires Lock.Chain(RulesFor(edits, cas), init, log, seen)
    ensures WellFormed(LinesOf(seen)) &&
      NearRegions(RegionsOf(LinesOf(seen)), Intended(edits, log, RegionsOf(LinesOf(init))))
  {
    hide WellFormed, RegionsOf, LinesOf, Means, Spares, ApplyRoute, GoodRoute, TrimSpace;
    if log == [] {
      Read(init);
      assert seen == TrimSpace(init);
    } else {
      hide NearRegions;
      var front, last := log[..|log| - 1], log[|log| - 1];
      var e := edits(last.editor);
      ChainParts(edits, cas, init, log, seen);
      forall n | 0 <= n < |front|
        ensures GoodRoute(edits(front[n].editor)) && Spares(front[n].before, edits(front[n].editor))
      {
        assert front[n] == log[n];
      }
      EditRunEnds(edits, cas, init, front, last.before);
      RouteStep(last.before, e, last.after);
      var before, start := RegionsOf(LinesOf(last.before)), RegionsOf(LinesOf(init));
      MeansNear(before, Intended(edits, front, start), e, last.before);
      NearTrans(RegionsOf(LinesOf(seen)), Means(before, e, last.before),
        Means(Intended(edits, front, start), e, last.before));
    }
  }

  lemma Read(text: string)
    requires WellFormed(LinesOf(text))
    ensures WellFormed(LinesOf(TrimSpace(text))) &&
      NearRegions(RegionsOf(LinesOf(TrimSpace(text))), RegionsOf(LinesOf(text)))
    ensures RegionsOf(LinesOf(TrimSpace(text))) == RegionsOf(LinesOf(text))
  {
    hide WellFormed, RegionsOf, LinesOf;
    TrimSpaceKeeps(text);
  }

  /** The protocol and the text together, for any first file whose edits adopt
      without touching a managed region. */
  lemma TameRunEnds(edits: nat -> RouteEdit, cas: (nat, string) -> bool, init: string, es: seq<Lock.Event<string>>)
    requires WellFormed(LinesOf(init))
    requires Lock.Fenced(RulesFor(edits, cas), Lock.Start(init), es)
    requires Tame(edits, Lock.Survivors(Lock.Run(RulesFor(edits, cas), Lock.Start(init), es).writes))
    ensures var w := Lock.Run(RulesFor(edits, cas), Lock.Start(init), es);
      && WellFormed(LinesOf(TrimSpace(w.file)))
      && NearRegions(RegionsOf(LinesOf(TrimSpace(w.file))),
        Intended(edits, Lock.Survivors(w.writes), RegionsOf(LinesOf(init))))
  {
    hide WellFormed, RegionsOf, LinesOf, Intended, Tame, Lock.Run, Lock.Fenced, Lock.Survivors, Lock.Chain;
    ReadsOnce(edits, cas);
    Lock.NoLostUpdate(RulesFor(edits, cas), init, es);
    var w := Lock.Run(RulesFor(edits, cas), Lock.Start(init), es);
    EditRunEnds(edits, cas, init, Lock.Survivors(w.writes), TrimSpace(w.file));
  }

  /** The last edit that leaves an app a block, with no later one that proves it
      legacy, stands. */
  lemma {:induction false} LastEditStands(edits: nat -> RouteEdit, log: seq<Lock.Write<string>>,
                                          start: map<string, seq<string>>, k: nat)
    requires k < |log| && Writes(edits(log[k].editor), log[k].before)
    requires forall n :: k < n < |log| ==> !Concerns(edits(log[n].editor), AppOf(edits(log[k].editor)))
    ensures var e := edits(log[k].editor); var meant := Intended(edits, log, start);
      AppOf(e) in meant && meant[AppOf(e)] == BodyBy(e, log[k].before)
  {
    hide WrittenBody, LegacyGoes, RenewedBody, ExtractBlock;
    if k < |log| - 1 {
      LastEditStands(edits, log[..|log| - 1], start, k);
    }
  }

  /** Read back, an app's block is what its last edit wrote; exactly, when that
      has no two empty lines in a row. */
  lemma LastBlockReadsBack(edits: nat -> RouteEdit, cas: (nat, string) -> bool, init: string,
                           log: seq<Lock.Write<string>>, seen: string, k: nat)
    requires WellFormed(LinesOf(init)) && Tame(edits, log) && Lock.Chain(RulesFor(edits, cas), init, log, seen)
    requires k < |log| && Writes(edits(log[k].editor), log[k].before)
    requires forall n :: k < n < |log| ==> !Concerns(edits(log[n].editor), AppOf(edits(log[k].editor)))
    ensures var e := edits(log[k].editor); var body := BodyBy(e, log[k].before);
      && (ExtractBlock(seen, AppOf(e)) == Bare(Unlines(body)) ||
          ExtractBlock(seen, AppOf(e)) == Bare(Unlines(SqueezeLines(body, 1))))
      && (NoRuns(body) ==> ExtractBlock(seen, AppOf(e)) == Bare(Unlines(body)))
  {
    hide WellFormed, RegionsOf, LinesOf, Intended, ExtractBlock, Lock.Chain, BodyBy, NoMarkers, ValidName,
      SqueezeLines, Unlines, Trim, Spares, GoodEdit, GoodConfig, Writes, Concerns;
    var e := edits(log[k].editor);
    var body := BodyBy(e, log[k].before);
    EditRunEnds(edits, cas, init, log, seen);
    LastEditStands(edits, log, RegionsOf(LinesOf(init)), k);
    GoodApp(e);
    ExtractReadsRegion(seen, AppOf(e));
    if NoRuns(body) {
      SqueezeNoRuns(body, 1);
    }
  }

  lemma GoodApp(e: RouteEdit)
    requires GoodRoute(e)
    ensures ValidName(AppOf(e))
  {
    hide ValidName;
  }

  /** Edits that adopt nothing, or whose file is one adoption is exact on, leave
      the managed regions: the condition of the results above. */
  lemma WhenAdoptionSpares(prev: string, app: string, hosts: seq<string>, items: seq<Item>)
    requires WellFormed(LinesOf(prev)) && ValidName(app)
    requires hosts == [] || (Adoptable(items, hosts) && RemoveBlock(prev, app).Ok? &&
                               RemoveLegacy(prev, RemoveBlock(prev, app).value, app, hosts) == Ok(FileOf(items)))
    ensures AdoptionSpares(prev, app, hosts)
  {
    hide WellFormed, RegionsOf, LinesOf, RemoveBlock, ValidName, RemoveLegacy, Adoptable, FileOf, AdoptForeign,
      SparesRegions;
    RemoveNear(prev, app);
    RemoveLegacyNear(prev, RemoveBlock(prev, app).value, app, hosts);
    var rid := RemoveLegacy(prev, RemoveBlock(prev, app).value, app, hosts).value;
    if hosts == [] {
      assert SparesRegions(LinesOf(rid), LinesOf(rid)) by { SparesItself(rid); }
    } else {
      AdoptReturns(items, hosts);
      AdoptionSparesRegions(items, hosts);
    }
  }

  /** So do edits of any file the parser reads, heredocs included, whose hosts no
      foreign block serves. */
  lemma UntouchedIsSpared(prev: string, app: string, hosts: seq<string>, text: string)
    requires WellFormed(LinesOf(prev)) && ValidName(app) && RemoveBlock(prev, app).Ok?
    requires RemoveLegacy(prev, RemoveBlock(prev, app).value, app, hosts) == Ok(text)
    requires ForeignSites(text).Ok? && forall b :: b in ForeignSites(text).value ==> !Touched(b, hosts)
    ensures AdoptionSpares(prev, app, hosts)
  {
    hide WellFormed, RegionsOf, LinesOf, RemoveBlock, ValidName, RemoveLegacy, ForeignSites, AdoptForeign,
      SparesRegions, Touched;
    NothingToAdopt(text, hosts);
    assert SparesRegions(LinesOf(text), LinesOf(text)) by { SparesItself(text); }
  }

  lemma SparesItself(text: string)
    ensures SparesRegions(LinesOf(text), LinesOf(text))
  {
  }
}
