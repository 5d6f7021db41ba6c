/** Any run of edits of the Caddyfile, from what the first file and the edits are
    (internal/caddy/caddy.go, routes.go, webhook.go). */
module CaddyRuns {
  import opened Wrappers
  import opened Text
  import opened TextLines
  import opened Regions
  import opened RegionLaws
  import opened RegionEdit
  import opened RouteLex
  import opened Routes
  import opened RouteAddress
  import opened RouteItems
  import opened Adoption
  import opened AdoptionExact
  import opened Render
  import opened Webhook
  import opened FileItems
  import opened FileEdits
  import opened FileReads
  import opened PlainFiles
  import opened CaddyFile
  import opened Renewals
  import opened LegacyRoutes
  import Lock = CaddyLock

  // ---- what is asked of an edit ----

  /** A body that opens no foreign site's address but those of its own hosts. */
  ghost predicate BodyFits(body: seq<string>, hosts: seq<string>, bs: seq<SiteBlock>) {
    && TightBody(body)
    && forall b, a :: b in bs && a in b.addresses && Opens(LogicalLines(body))[a] > 0 ==> AddressHost(a) in hosts
  }

  /** A good edit whose hosts are served by foreign sites, if at all, on plain
      address lines, and whose block repeats no other foreign address. */
  ghost predicate Fits(e: BlockEdit, bs: seq<SiteBlock>) {
    && GoodEdit(e)
    && (forall b :: b in bs && Touched(b, e.hosts) ==> Plainly(b))
    && (e.block != "" ==> BodyFits(BodyOf(e.block), e.hosts, bs) && BodyFits(WrittenBody(e), e.hosts, bs))
  }

  /** What fits the foreign sites there were fits what is left of them. */
  lemma FitsShrunk(e: BlockEdit, after: seq<SiteBlock>, before: seq<SiteBlock>)
    requires Fits(e, before) && Shrunk(after, before)
    ensures Fits(e, after)
  {
    hide GoodEdit, Plainly, TightBody, Opens, AddressHost, BodyOf, WrittenBody;
    forall c | c in after && Touched(c, e.hosts) ensures Plainly(c) {
      var b :| b in before && LeftOf(c, b);
      var a :| a in c.addresses && AddressHost(a) in e.hosts;
      assert Touched(b, e.hosts);
    }
    if e.block != "" {
      BodyFitsShrunk(BodyOf(e.block), e.hosts, after, before);
      BodyFitsShrunk(WrittenBody(e), e.hosts, after, before);
    }
  }

  lemma BodyFitsShrunk(body: seq<string>, hosts: seq<string>, after: seq<SiteBlock>, before: seq<SiteBlock>)
    requires BodyFits(body, hosts, before) && Shrunk(after, before)
    ensures BodyFits(body, hosts, after)
  {
    hide TightBody, Opens, AddressHost, Plainly;
    forall c, a | c in after && a in c.addresses && Opens(LogicalLines(body))[a] > 0 ensures AddressHost(a) in hosts {
      var b :| b in before && LeftOf(c, b);
      assert a in b.addresses;
    }
  }

  /** A block that, renewed, opens no foreign site's address but those of the hosts
      it was given with. */
  ghost predicate RenewalFits(block: string, app: string, hook: Option<WebhookConfig>, hosts: seq<string>,
                              bs: seq<SiteBlock>) {
    var renewed := Renew(Bare(block), app, hook);
    Steady(block, app, hook) && (renewed.Ok? ==> BodyFits(BodyOf(renewed.value), hosts, bs))
  }

  /** A good renewal, each of whose app's blocks it fits. */
  ghost predicate Renews(edits: nat -> RouteEdit, log: seq<Lock.Write<string>>, init: string, app: string,
                         hook: Option<WebhookConfig>, bs: seq<SiteBlock>)
    requires WellFormed(LinesOf(init))
  {
    && ValidName(app) && (hook.Some? ==> GoodConfig(hook.value)) && SteadyRun(edits, log, init, app)
    && forall t, hosts :: Given(edits, log, init, app, t, hosts) ==> RenewalFits(t, app, hook, hosts, bs)
  }

  /** An edit of the log that fits the foreign sites there were at first. */
  ghost predicate Suits(edits: nat -> RouteEdit, log: seq<Lock.Write<string>>, init: string, e: RouteEdit,
                        bs: seq<SiteBlock>)
    requires WellFormed(LinesOf(init))
  {
    match e
    case Upsert(b) => Fits(b, bs)
    case Renewal(app, hook) => Renews(edits, log, init, app, hook, bs)
  }

  // ---- sites that are told alike ----

  /** The foreign sites there were, without the hosts that the edits have taken over. */
  function Adopted(edits: nat -> RouteEdit, log: seq<Lock.Write<string>>, bs: seq<SiteBlock>): seq<SiteBlock> {
    if log == [] then bs
    else EditBlocks(Adopted(edits, log[..|log| - 1], bs), HostsOf(edits(log[|log| - 1].editor)))
  }

  function HostsOf(e: RouteEdit): seq<string> { if e.Upsert? then e.upsert.hosts else [] }

  lemma EditTold(a: SiteBlock, b: SiteBlock, hosts: seq<string>)
    requires Told(a) == Told(b)
    ensures ToldAll(EditBlock(a, hosts)) == ToldAll(EditBlock(b, hosts))
  {
    hide KeptAddresses, HostsWithin, AddressHosts, JoinAddresses, LeadingWhitespace, Trim, Said, ToldAll;
    assert a.addresses == b.addresses && (a.lines == [] <==> b.lines == []);
    match EditOf(a, hosts) {
      case Keep =>
        ToldOne(a);
        ToldOne(b);
      case Drop =>
      case Rewrite(_) => RewriteTold(a, b, KeptAddresses(a.addresses, hosts));
    }
  }

  /** A rewritten address line differs in its indent at most. */
  lemma RewriteTold(a: SiteBlock, b: SiteBlock, kept: seq<string>)
    requires Told(a) == Told(b) && a.lines != [] && b.lines != []
    ensures ToldAll([SiteBlock(kept, [Rewritten(a.lines[0], kept)] + a.lines[1..])]) ==
      ToldAll([SiteBlock(kept, [Rewritten(b.lines[0], kept)] + b.lines[1..])])
  {
    hide JoinAddresses, LeadingWhitespace, Trim, Said, ToldAll;
    var c := SiteBlock(kept, [Rewritten(a.lines[0], kept)] + a.lines[1..]);
    var d := SiteBlock(kept, [Rewritten(b.lines[0], kept)] + b.lines[1..]);
    IndentTrims(a.lines[0], kept);
    IndentTrims(b.lines[0], kept);
    assert c.lines[1..] == a.lines[1..] && d.lines[1..] == b.lines[1..];
    assert Told(a).lines[1..] == Said(a.lines[1..]) && Told(b).lines[1..] == Said(b.lines[1..]);
    ToldOne(c);
    ToldOne(d);
  }

  lemma IndentTrims(first: string, kept: seq<string>)
    ensures TrimSpace(Rewritten(first, kept)) == TrimSpace(JoinAddresses(kept) + " {")
  {
    hide JoinAddresses, LeadingWhitespace, Trim;
    IndentIsBlank(first);
    var line := JoinAddresses(kept) + " {";
    assert Rewritten(first, kept) == LeadingWhitespace(first) + line + "";
    TrimAround(LeadingWhitespace(first), line, "", IsSpace);
  }

  /** Sites that are told alike are edited alike. */
  lemma {:induction false} EditsTold(a: seq<SiteBlock>, b: seq<SiteBlock>, hosts: seq<string>)
    requires ToldAll(a) == ToldAll(b)
    ensures ToldAll(EditBlocks(a, hosts)) == ToldAll(EditBlocks(b, hosts))
  {
    hide Told, EditBlock;
    if a != [] {
      ToldHead(a);
      ToldHead(b);
      EditTold(a[0], b[0], hosts);
      EditsTold(a[1..], b[1..], hosts);
      ToldConcat(EditBlock(a[0], hosts), EditBlocks(a[1..], hosts));
      ToldConcat(EditBlock(b[0], hosts), EditBlocks(b[1..], hosts));
    }
  }

  lemma ToldHead(bs: seq<SiteBlock>)
    ensures bs == [] <==> ToldAll(bs) == []
    ensures bs != [] ==> ToldAll(bs)[0] == Told(bs[0]) && ToldAll(bs)[1..] == ToldAll(bs[1..])
  {
    hide Told;
  }

  lemma NothingAdopted(bs: seq<SiteBlock>)
    ensures EditBlocks(bs, []) == bs
  {
    hide EditOf, EditBlocks;
    forall b | b in bs ensures EditOf(b, []).Keep? {
      NoHostsKeep(b);
    }
    NothingEdited(bs, []);
  }

  lemma NoHostsKeep(b: SiteBlock)
    ensures EditOf(b, []).Keep?
  {
    hide KeptAddresses, AddressHosts;
    AllKept(b.addresses, []);
    var hosts := AddressHosts(b.addresses);
    assert hosts != [] ==> hosts[0] in hosts;
  }

  // ---- one edit ----

  lemma FreeShrunk(after: seq<Item>, before: seq<Item>, hosts: seq<string>)
    requires FreeOf(before, hosts) && Shrunk(SitesOf(after), SitesOf(before))
    ensures FreeOf(after, hosts)
  {
    hide AddressHost, Plainly, SitesOf;
    forall c, a | c in SitesOf(after) && a in c.addresses ensures AddressHost(a) !in hosts {
      var b :| b in SitesOf(before) && LeftOf(c, b);
      assert a in b.addresses;
    }
  }

  /** A region that opens no address of the foreign sites leaves them their own. */
  lemma PutKeepsOwn(after: seq<Item>, before: seq<Item>, body: seq<string>, hosts: seq<string>)
    requires OwnAddresses(before) && FreeOf(before, hosts) && BodyFits(body, hosts, SitesOf(before))
    requires Shrunk(SitesOf(after), SitesOf(before)) &&
      FileOpens(after) <= FileOpens(before) + Opens(LogicalLines(body))
    ensures OwnAddresses(after)
  {
    hide AddressHost, Plainly, SitesOf, FileOpens, TightBody, Opens;
    var more := Opens(LogicalLines(body));
    forall c, a | c in SitesOf(after) && a in c.addresses ensures FileOpens(after)[a] == 1 {
      var b :| b in SitesOf(before) && LeftOf(c, b);
      assert a in b.addresses;
      SiteOpens(after, c, a);
      assert more[a] == 0;
      assert FileOpens(after)[a] <= (FileOpens(before) + more)[a];
    }
  }

  lemma WriteFile(text: string, items: seq<Item>, app: string, block: string, hosts: seq<string>)
    returns (after: seq<Item>)
    requires IsFile(text, items) && ValidName(app) && OwnAddresses(items) && FreeOf(items, hosts)
    requires BodyFits(BodyOf(block), hosts, SitesOf(items))
    ensures IsFile(PutBlock(text, app, block), after) && OwnAddresses(after) && FreeOf(after, hosts)
    ensures Shrunk(SitesOf(after), SitesOf(items)) && ToldAll(SitesOf(after)) == ToldAll(SitesOf(items))
  {
    hide IsFile, ValidName, OwnAddresses, FreeOf, PutBlock, BodyOf, SitesOf, FileOpens, Shrunk, ToldAll;
    after := PutFile(text, items, app, block);
    PutKeepsOwn(after, items, BodyOf(block), hosts);
    FreeShrunk(after, items, hosts);
  }

  lemma FreeOfNothing(items: seq<Item>)
    ensures FreeOf(items, [])
  {
  }

  lemma RemoveOwnFile(text: string, items: seq<Item>, app: string) returns (after: seq<Item>)
    requires IsFile(text, items) && OwnAddresses(items) && RemoveBlock(text, app).Ok?
    ensures IsFile(RemoveBlock(text, app).value, after) && OwnAddresses(after)
    ensures Shrunk(SitesOf(after), SitesOf(items)) && ToldAll(SitesOf(after)) == ToldAll(SitesOf(items))
  {
    hide IsFile, OwnAddresses, RemoveBlock, SitesOf, FileOpens, Shrunk, ToldAll;
    after := RemoveFile(text, items, app);
    OwnBelow(after, items);
    ShrunkOfBelow(after, items);
  }

  /** Up to where the new block is written: the app's region is gone, and adoption
      has freed its hosts without touching another region. */
  lemma ClearedFile(prev: string, items: seq<Item>, e: BlockEdit) returns (after: seq<Item>)
    requires IsFile(prev, items) && OwnAddresses(items) && Fits(e, SitesOf(items)) && WellFormed(LinesOf(prev))
    ensures AdoptionSpares(prev, e.app, e.hosts)
    ensures var removed := RemoveBlock(prev, e.app);
      removed.Ok? && var rid := RemoveLegacy(prev, removed.value, e.app, e.hosts);
        rid.Ok? && var updated := Adopt(rid.value, e.hosts);
          updated.Ok? && IsFile(updated.value, after)
    ensures OwnAddresses(after) && FreeOf(after, e.hosts) && Shrunk(SitesOf(after), SitesOf(items))
    ensures ToldAll(SitesOf(after)) == ToldAll(EditBlocks(SitesOf(items), e.hosts))
  {
    hide IsFile, OwnAddresses, RemoveBlock, SitesOf, Shrunk, LegacyGoes, AdoptForeign, WellFormed, RegionsOf, Outside,
      ValidName, SparesRegions, LinesOf, FreeOf, Touched, Plainly, BodyFits, ToldAll, EditBlocks, FileOpens;
    RemoveNear(prev, e.app);
    var removed := RemoveBlock(prev, e.app).value;
    var i1 := RemoveOwnFile(prev, items, e.app);
    RemoveLegacyNear(prev, removed, e.app, e.hosts);
    var i2 := i1;
    if LegacyGoes(prev, e.app, e.hosts) {
      i2 := RemoveOwnFile(removed, i1, "lb-" + e.app);
      ShrunkTrans(SitesOf(i2), SitesOf(i1), SitesOf(items));
    }
    var rid := RemoveLegacy(prev, removed, e.app, e.hosts).value;
    FitsShrunk(e, SitesOf(i2), SitesOf(items));
    after := i2;
    if e.hosts == [] {
      assert SparesRegions(LinesOf(rid), LinesOf(rid)) by { SparesItself(rid); }
      FreeOfNothing(i2);
      NothingAdopted(SitesOf(items));
    } else {
      after := AdoptFile(rid, i2, e.hosts);
      OwnBelow(after, i2);
      ShrunkOfBelow(after, i2);
      ShrunkTrans(SitesOf(after), SitesOf(i2), SitesOf(items));
      EditsTold(SitesOf(i2), SitesOf(items), e.hosts);
    }
  }

  lemma RenderedFile(prev: string, items: seq<Item>, e: BlockEdit) returns (after: seq<Item>)
    requires IsFile(prev, items) && OwnAddresses(items) && Fits(e, SitesOf(items)) && WellFormed(LinesOf(prev))
    ensures AdoptionSpares(prev, e.app, e.hosts)
    ensures var r := RenderUpdated(prev, e.app, e.hosts, e.block); r.Ok? && IsFile(r.value, after)
    ensures OwnAddresses(after) && FreeOf(after, e.hosts) && Shrunk(SitesOf(after), SitesOf(items))
    ensures ToldAll(SitesOf(after)) == ToldAll(EditBlocks(SitesOf(items), e.hosts))
  {
    hide ToldAll, EditBlocks, FileOpens, IsFile, OwnAddresses, RemoveBlock, SitesOf, Shrunk, RemoveLegacy, Adopt,
      WellFormed, ValidName, LinesOf,
      FreeOf, Touched, Plainly, BodyFits, PutBlock, AdoptionSpares, TrimRight;
    var cleared := ClearedFile(prev, items, e);
    FitsShrunk(e, SitesOf(cleared), SitesOf(items));
    var rid := RemoveLegacy(prev, RemoveBlock(prev, e.app).value, e.app, e.hosts).value;
    var updated := Adopt(rid, e.hosts).value;
    if e.block != "" {
      after := WriteFile(updated, cleared, e.app, e.block, e.hosts);
    } else {
      after := EndFile(updated, cleared);
      OwnBelow(after, cleared);
      ShrunkOfBelow(after, cleared);
      FreeShrunk(after, cleared, e.hosts);
    }
    ShrunkTrans(SitesOf(after), SitesOf(cleared), SitesOf(items));
  }

  /** What the second half of an edit reads back of the first. */
  lemma ReadsRendered(prev: string, e: BlockEdit)
    requires WellFormed(LinesOf(prev)) && GoodEdit(e) && AdoptionSpares(prev, e.app, e.hosts)
    ensures var r := RenderUpdated(prev, e.app, e.hosts, e.block);
      r.Ok? && WellFormed(LinesOf(r.value)) && ExtractBlock(r.value, e.app) == Bare(e.block)
  {
    hide WellFormed, RegionsOf, LinesOf, ValidName, LegacyGoes, RenderUpdated, BodyOf, NoMarkers, ExtractBlock, Trim,
      GoodConfig, AdoptionSpares, Unlines;
    RenderKeeps(prev, e.app, e.hosts, e.block);
    var r := RenderUpdated(prev, e.app, e.hosts, e.block).value;
    ExtractReadsRegion(r, e.app);
    if e.block != "" {
      WrittenBlockReadsBack(e.block);
    } else {
      BareOfNothing();
    }
  }

  /** One edit takes a file to a file: what it was asked for is all it needs. */
  lemma EditedTo(prev: string, items: seq<Item>, e: BlockEdit) returns (after: seq<Item>)
    requires IsFile(prev, items) && OwnAddresses(items) && Fits(e, SitesOf(items)) && WellFormed(LinesOf(prev))
    requires ApplyManaged(prev, e).Ok?
    ensures AdoptionSpares(prev, e.app, e.hosts)
    ensures IsFile(TrimSpace(ApplyManaged(prev, e).value), after)
    ensures OwnAddresses(after) && Shrunk(SitesOf(after), SitesOf(items))
    ensures ToldAll(SitesOf(after)) == ToldAll(EditBlocks(SitesOf(items), e.hosts))
  {
    hide ToldAll, EditBlocks, IsFile, OwnAddresses, RemoveBlock, SitesOf, Shrunk, RenderUpdated, WellFormed, LinesOf,
      FreeOf, Touched,
      Plainly, BodyFits, PutBlock, AdoptionSpares, TrimSpace, Renew, ExtractBlock, Trim, ValidName, FileOpens;
    var rendered := RenderedFile(prev, items, e);
    ReadsRendered(prev, e);
    var r := RenderUpdated(prev, e.app, e.hosts, e.block).value;
    var written := rendered;
    if Bare(e.block) != "" {
      BareOfNothing();
      var cleared := RemoveOwnFile(r, rendered, e.app);
      FreeShrunk(cleared, rendered, e.hosts);
      ShrunkTrans(SitesOf(cleared), SitesOf(rendered), SitesOf(items));
      FitsShrunk(e, SitesOf(cleared), SitesOf(items));
      written := WriteFile(RemoveBlock(r, e.app).value, cleared, e.app, Renew(Bare(e.block), e.app, e.hook).value,
        e.hosts);
      ShrunkTrans(SitesOf(written), SitesOf(cleared), SitesOf(items));
    }
    after := ReadFile(ApplyManaged(prev, e).value, written);
    OwnBelow(after, written);
    ShrunkOfBelow(after, written);
    ShrunkTrans(SitesOf(after), SitesOf(written), SitesOf(items));
  }

  /** So does a renewal, which adopts nothing. */
  lemma RenewedTo(prev: string, items: seq<Item>, app: string, hook: Option<WebhookConfig>) returns (after: seq<Item>)
    requires IsFile(prev, items) && OwnAddresses(items) && ValidName(app) && ApplyWebhook(prev, app, hook).Ok?
    requires ExtractBlock(prev, app) != "" ==> BodyFits(RenewedBody(prev, app, hook), [], SitesOf(items))
    ensures IsFile(TrimSpace(ApplyWebhook(prev, app, hook).value), after)
    ensures OwnAddresses(after) && Shrunk(SitesOf(after), SitesOf(items))
    ensures ToldAll(SitesOf(after)) == ToldAll(EditBlocks(SitesOf(items), []))
  {
    hide IsFile, OwnAddresses, RemoveBlock, SitesOf, Shrunk, FreeOf, BodyFits, PutBlock, TrimSpace, Renew, ExtractBlock,
      ValidName, FileOpens, ToldAll, EditBlocks, BodyOf;
    var written := items;
    ShrunkSelf(SitesOf(items));
    NothingAdopted(SitesOf(items));
    var block := ExtractBlock(prev, app);
    if block != "" {
      var cleared := RemoveOwnFile(prev, items, app);
      FreeOfNothing(cleared);
      BodyFitsShrunk(RenewedBody(prev, app, hook), [], SitesOf(cleared), SitesOf(items));
      written := WriteFile(RemoveBlock(prev, app).value, cleared, app, Renew(block, app, hook).value, []);
      ShrunkTrans(SitesOf(written), SitesOf(cleared), SitesOf(items));
    }
    after := ReadFile(ApplyWebhook(prev, app, hook).value, written);
    OwnBelow(after, written);
    ShrunkOfBelow(after, written);
    ShrunkTrans(SitesOf(after), SitesOf(written), SitesOf(items));
  }

  // ---- any run of them ----

  /** The first file is made of regions and top-level blocks whose addresses are
      their own, and every edit suits its foreign sites. */
  ghost predicate Ready(edits: nat -> RouteEdit, log: seq<Lock.Write<string>>, init: string, bs: seq<SiteBlock>)
    requires WellFormed(LinesOf(init))
  {
    forall n :: 0 <= n < |log| ==> Suits(edits, log, init, edits(log[n].editor), bs)
  }

  /** Then adoption leaves the regions at every step: nothing else is assumed of
      the files in between. */
  lemma {:induction false} ReadyIsTame(edits: nat -> RouteEdit, cas: (nat, string) -> bool, init: string,
                                       items: seq<Item>,
                                       log: seq<Lock.Write<string>>, seen: string) returns (after: seq<Item>)
    requires WellFormed(LinesOf(init)) && IsFile(init, items) && OwnAddresses(items)
    requires Ready(edits, log, init, SitesOf(items)) && Lock.Chain(RulesFor(edits, cas), init, log, seen)
    ensures Tame(edits, log) && IsFile(seen, after) && OwnAddresses(after) && Shrunk(SitesOf(after), SitesOf(items))
    ensures ToldAll(SitesOf(after)) == ToldAll(Adopted(edits, log, SitesOf(items)))
    decreases |log|
  {
    hide WellFormed, LinesOf, IsFile, OwnAddresses, Ready, Shrunk, SitesOf, TrimSpace, Tame, RegionsOf, Intended,
      ToldAll, EditBlocks, FileOpens;
    if log == [] {
      after := ReadFile(init, items);
      OwnBelow(after, items);
      ShrunkOfBelow(after, items);
      NothingIsTame(edits);
    } else {
      hide Lock.Chain, ApplyRoute;
      var front, last := log[..|log| - 1], log[|log| - 1];
      ChainParts(edits, cas, init, log, seen);
      ReadyFront(edits, log, init, SitesOf(items));
      var mid := ReadyIsTame(edits, cas, init, items, front, last.before);
      EditRunEnds(edits, cas, init, front, last.before);
      after := ReadyStep(edits, cas, init, log, items, mid);
      ShrunkTrans(SitesOf(after), SitesOf(mid), SitesOf(items));
      EditsTold(SitesOf(mid), Adopted(edits, front, SitesOf(items)), HostsOf(edits(last.editor)));
    }
  }

  lemma NothingIsTame(edits: nat -> RouteEdit)
    ensures Tame(edits, [])
  {
  }

  lemma ReadyFront(edits: nat -> RouteEdit, log: seq<Lock.Write<string>>, init: string, bs: seq<SiteBlock>)
    requires WellFormed(LinesOf(init)) && log != [] && Ready(edits, log, init, bs)
    ensures Ready(edits, log[..|log| - 1], init, bs) && Suits(edits, log, init, edits(log[|log| - 1].editor), bs)
  {
    hide Suits, WellFormed, LinesOf;
    var front := log[..|log| - 1];
    forall n | 0 <= n < |front| ensures Suits(edits, front, init, edits(front[n].editor), bs) {
      assert front[n] == log[n];
      SuitsFront(edits, log, init, edits(front[n].editor), bs);
    }
  }

  lemma SuitsFront(edits: nat -> RouteEdit, log: seq<Lock.Write<string>>, init: string, e: RouteEdit,
                   bs: seq<SiteBlock>)
    requires WellFormed(LinesOf(init)) && log != [] && Suits(edits, log, init, e, bs)
    ensures Suits(edits, log[..|log| - 1], init, e, bs)
  {
    hide Fits, WellFormed, LinesOf, RegionsOf, Given, RenewalFits, SteadyRun, ValidName, GoodConfig;
    if e.Renewal? {
      SteadyFront(edits, log, init, e.renewed);
      forall t, hosts | Given(edits, log[..|log| - 1], init, e.renewed, t, hosts)
        ensures Given(edits, log, init, e.renewed, t, hosts)
      {
        GivenMore(edits, log, init, e.renewed, t, hosts);
      }
    }
  }

  /** The last edit of a log, from the file the one before it left. */
  lemma ReadyStep(edits: nat -> RouteEdit, cas: (nat, string) -> bool, init: string, log: seq<Lock.Write<string>>,
                  items: seq<Item>, mid: seq<Item>) returns (after: seq<Item>)
    requires WellFormed(LinesOf(init)) && log != [] && Tame(edits, log[..|log| - 1])
    requires Suits(edits, log, init, edits(log[|log| - 1].editor), SitesOf(items))
    requires Lock.Chain(RulesFor(edits, cas), init, log[..|log| - 1], log[|log| - 1].before)
    requires IsFile(log[|log| - 1].before, mid) && OwnAddresses(mid) && Shrunk(SitesOf(mid), SitesOf(items))
    requires ToldAll(SitesOf(mid)) == ToldAll(Adopted(edits, log[..|log| - 1], SitesOf(items)))
    requires WellFormed(LinesOf(log[|log| - 1].before))
    requires ApplyRoute(log[|log| - 1].before, edits(log[|log| - 1].editor)) == Ok(log[|log| - 1].after)
    ensures Tame(edits, log)
    ensures IsFile(TrimSpace(log[|log| - 1].after), after) && OwnAddresses(after) &&
      Shrunk(SitesOf(after), SitesOf(mid))
    ensures ToldAll(SitesOf(after)) == ToldAll(EditBlocks(SitesOf(mid), HostsOf(edits(log[|log| - 1].editor))))
  {
    hide ToldAll, EditBlocks, WellFormed, LinesOf, IsFile, OwnAddresses, Fits, Renews, Shrunk, SitesOf, ApplyManaged,
      ApplyWebhook, TrimSpace, AdoptionSpares, GoodEdit, ValidName, GoodConfig, Lock.Chain, RulesFor;
    var front, last := log[..|log| - 1], log[|log| - 1];
    match edits(last.editor) {
      case Upsert(e) =>
        FitsShrunk(e, SitesOf(mid), SitesOf(items));
        after := EditedTo(last.before, mid, e);
        FitsIsGood(e, SitesOf(items));
      case Renewal(app, hook) =>
        RenewalStep(edits, cas, init, log, app, hook, SitesOf(items), SitesOf(mid));
        after := RenewedTo(last.before, mid, app, hook);
    }
    TameSnoc(edits, log);
  }

  lemma TameSnoc(edits: nat -> RouteEdit, log: seq<Lock.Write<string>>)
    requires log != [] && Tame(edits, log[..|log| - 1])
    requires var last := log[|log| - 1]; GoodRoute(edits(last.editor)) && Spares(last.before, edits(last.editor))
    ensures Tame(edits, log)
  {
    hide GoodRoute, Spares;
    var front := log[..|log| - 1];
    assert forall n :: 0 <= n < |front| ==> log[n] == front[n];
  }

  /** What a renewal finds is one of the blocks it fits, and the hosts that block
      was given with are no foreign site's any more. */
  lemma RenewalStep(edits: nat -> RouteEdit, cas: (nat, string) -> bool, init: string, log: seq<Lock.Write<string>>,
                    app: string, hook: Option<WebhookConfig>, bs: seq<SiteBlock>, now: seq<SiteBlock>)
    requires WellFormed(LinesOf(init)) && log != [] && Tame(edits, log[..|log| - 1])
    requires Lock.Chain(RulesFor(edits, cas), init, log[..|log| - 1], log[|log| - 1].before)
    requires Renews(edits, log, init, app, hook, bs) && ApplyWebhook(log[|log| - 1].before, app, hook).Ok?
    requires Shrunk(now, bs) && ToldAll(now) == ToldAll(Adopted(edits, log[..|log| - 1], bs))
    ensures var prev := log[|log| - 1].before;
      ExtractBlock(prev, app) != "" ==> BodyFits(RenewedBody(prev, app, hook), [], now)
    ensures ValidName(app) && (hook.Some? ==> GoodConfig(hook.value))
  {
    hide WellFormed, LinesOf, RegionsOf, ValidName, GoodConfig, SteadyRun, Given, Tame, Lock.Chain, RulesFor, BodyFits,
      Steady, Strip, Inject, RemoveBlock, PutBlock, BodyOf, ExtractBlock, NoRuns, Trim, Shrunk, ToldAll, Adopted;
    var front, prev := log[..|log| - 1], log[|log| - 1].before;
    SteadyFront(edits, log, init, app);
    var t, hosts := BlockRenews(edits, cas, init, front, prev, app);
    GivenMore(edits, log, init, app, t, hosts);
    assert RenewalFits(t, app, hook, hosts, bs);
    if ExtractBlock(prev, app) != "" {
      BodyFitsShrunk(RenewedBody(prev, app, hook), hosts, now, bs);
      GivenIsFreed(edits, front, init, app, t, hosts, bs, now);
      BodyFitsFreed(RenewedBody(prev, app, hook), hosts, now);
    }
  }

  lemma BodyFitsFreed(body: seq<string>, hosts: seq<string>, bs: seq<SiteBlock>)
    requires BodyFits(body, hosts, bs) && FreedOf(bs, hosts)
    ensures BodyFits(body, [], bs)
  {
    hide TightBody, Opens, AddressHost;
  }

  lemma GivenIsFreed(edits: nat -> RouteEdit, log: seq<Lock.Write<string>>, init: string, app: string, t: string,
                     hosts: seq<string>, bs: seq<SiteBlock>, now: seq<SiteBlock>)
    requires Given(edits, log, init, app, t, hosts) && ToldAll(now) == ToldAll(Adopted(edits, log, bs))
    ensures FreedOf(now, hosts)
  {
    hide ExtractBlock, ToldAll, Adopted, AddressHost;
    if hosts != [] {
      var n :| 0 <= n < |log| && Gives(edits(log[n].editor), app, t, hosts);
      AdoptedIsFreed(edits, log, bs, n);
      FreedTold(now, Adopted(edits, log, bs), hosts);
    }
  }

  /** Once taken over, a host stays so. */
  lemma {:induction false} AdoptedIsFreed(edits: nat -> RouteEdit, log: seq<Lock.Write<string>>, bs: seq<SiteBlock>,
                                          n: nat)
    requires n < |log|
    ensures FreedOf(Adopted(edits, log, bs), HostsOf(edits(log[n].editor)))
  {
    hide EditBlocks, FreedOf, HostsOf;
    var front, last := log[..|log| - 1], log[|log| - 1];
    var before, hosts := Adopted(edits, front, bs), HostsOf(edits(last.editor));
    if n == |log| - 1 {
      EditsFree(before, hosts);
    } else {
      assert front[n] == log[n];
      AdoptedIsFreed(edits, front, bs, n);
      EditsKeepFreed(before, hosts, HostsOf(edits(log[n].editor)));
    }
  }

  lemma KeptIsFree(b: SiteBlock, hosts: seq<string>)
    ensures FreedOf(EditBlock(b, hosts), hosts)
    ensures forall c, a :: c in EditBlock(b, hosts) && a in c.addresses ==> a in b.addresses
  {
    hide AddressHost, LeadingWhitespace, JoinAddresses;
    KeptAreAddresses(b.addresses, hosts);
    KeptAllIsFree(b.addresses, hosts);
  }

  lemma {:induction false} KeptAllIsFree(addresses: seq<string>, hosts: seq<string>)
    ensures |KeptAddresses(addresses, hosts)| <= |addresses|
    ensures |KeptAddresses(addresses, hosts)| == |addresses| ==> forall a :: a in addresses ==> AddressHost(a) !in hosts
  {
    hide AddressHost;
    if addresses != [] {
      KeptAllIsFree(addresses[1..], hosts);
      assert addresses == [addresses[0]] + addresses[1..];
    }
  }

  lemma {:induction false} EditsFree(bs: seq<SiteBlock>, hosts: seq<string>)
    ensures FreedOf(EditBlocks(bs, hosts), hosts)
  {
    hide EditBlock, AddressHost;
    if bs != [] {
      KeptIsFree(bs[0], hosts);
      EditsFree(bs[1..], hosts);
    }
  }

  lemma {:induction false} EditsKeepFreed(bs: seq<SiteBlock>, hosts: seq<string>, freed: seq<string>)
    requires FreedOf(bs, freed)
    ensures FreedOf(EditBlocks(bs, hosts), freed)
  {
    hide EditBlock, AddressHost;
    if bs != [] {
      assert bs[0] in bs && forall b :: b in bs[1..] ==> b in bs;
      KeptIsFree(bs[0], hosts);
      EditsKeepFreed(bs[1..], hosts, freed);
    }
  }

  lemma {:induction false} FreedTold(a: seq<SiteBlock>, b: seq<SiteBlock>, hosts: seq<string>)
    requires ToldAll(a) == ToldAll(b) && FreedOf(b, hosts)
    ensures FreedOf(a, hosts)
  {
    hide AddressHost, Said, Trim;
    if a != [] {
      ToldHead(a);
      ToldHead(b);
      assert Told(a[0]).addresses == Told(b[0]).addresses;
      assert b[0] in b && forall x :: x in b[1..] ==> x in b;
      FreedTold(a[1..], b[1..], hosts);
    }
  }

  lemma FitsIsGood(e: BlockEdit, bs: seq<SiteBlock>)
    requires Fits(e, bs)
    ensures GoodEdit(e)
  {
  }

  // ---- in terms of the text ----

  /** The first file is plain, its foreign sites have their addresses to
      themselves, and every edit suits them. */
  ghost predicate Prepared(edits: nat -> RouteEdit, log: seq<Lock.Write<string>>, init: string) {
    PlainFile(LinesOf(init)) && OwnSites(init) && Ready(edits, log, init, ForeignSites(init).value)
  }

  lemma PreparedIsReady(edits: nat -> RouteEdit, log: seq<Lock.Write<string>>, init: string) returns (items: seq<Item>)
    requires Prepared(edits, log, init)
    ensures WellFormed(LinesOf(init)) && IsFile(init, items) && OwnAddresses(items)
    ensures ForeignSites(init) == Ok(SitesOf(items)) && Ready(edits, log, init, SitesOf(items))
  {
    hide WellFormed, LinesOf, OwnSites, Suits, PlainFile, IsFile, SitesOf, ForeignSites, OwnAddresses;
    items := ItemsOfPlain(init);
  }

  lemma FileIsPrepared(text: string, items: seq<Item>)
    requires WellFormed(LinesOf(text)) && IsFile(text, items) && OwnAddresses(items)
    ensures PlainFile(LinesOf(text)) && OwnSites(text) && ForeignSites(text) == Ok(SitesOf(items))
  {
    hide WellFormed, RegionsOf, LinesOf, OwnSites, PlainFile, AreFile, SitesOf, ForeignSites, OwnAddresses;
    FilesArePlain(LinesOf(text), items);
    PlainFileSays(text, items);
    OwnSitesIff(text, items);
  }

  /** One managed edit of a plain file succeeds, unless its block has no site to put
      the webhook fragment in. Read back, it is a plain file again, with the app's
      region as written, a proven legacy one gone, every other one kept, and the
      foreign sites there were, without the edit's hosts. */
  lemma PlainEdit(prev: string, e: BlockEdit)
    requires PlainFile(LinesOf(prev)) && OwnSites(prev) && Fits(e, ForeignSites(prev).value)
    ensures ApplyManaged(prev, e).Ok? <==>
      Bare(e.block) == "" || e.hook.None? || OpensSite(LinesOf(Strip(Bare(e.block), e.app)))
    ensures ApplyManaged(prev, e).Ok? ==> var now := TrimSpace(ApplyManaged(prev, e).value);
      && PlainFile(LinesOf(now)) && OwnSites(now) && Shrunk(ForeignSites(now).value, ForeignSites(prev).value)
      && ToldAll(ForeignSites(now).value) == ToldAll(EditBlocks(ForeignSites(prev).value, e.hosts))
      && NearRegions(RegionsOf(LinesOf(now)), MeantBy(RegionsOf(LinesOf(prev)), e, LegacyGoes(prev, e.app, e.hosts)))
  {
    hide WellFormed, RegionsOf, LinesOf, PlainFile, OwnSites, Fits, IsFile, SitesOf, ForeignSites, OwnAddresses, Shrunk,
      ApplyManaged, TrimSpace, MeantBy, LegacyGoes, NearRegions, AdoptionSpares, GoodEdit, ToldAll, EditBlocks,
      OpensSite, Strip, Trim;
    var items := ItemsOfPlain(prev);
    FitsIsGood(e, SitesOf(items));
    PlainIsWellFormed(prev);
    var rendered := RenderedFile(prev, items, e);
    ManagedEditSucceedsIff(prev, e);
    if ApplyManaged(prev, e).Ok? {
      var after := EditedTo(prev, items, e);
      EditStep(prev, e, ApplyManaged(prev, e).value);
      FileIsPrepared(TrimSpace(ApplyManaged(prev, e).value), after);
    }
  }

  lemma PlainIsWellFormed(text: string)
    requires PlainFile(LinesOf(text))
    ensures WellFormed(LinesOf(text))
  {
    hide WellFormed, RegionsOf, LinesOf, TopLevel, NoLookalikes;
  }

  /** The protocol and the text together. In every run of any number of editors,
      whoever breaks the lock and whenever, whose rollbacks are harmless, from a
      file and with edits as above: the file always is plain, each app's region is
      what the last of its edits that nobody took back wrote, in the order the
      commits landed, and the foreign sites are the ones there were, in order and
      line by line, without the hosts those edits took over. */
  lemma FinalCaddyfile(edits: nat -> RouteEdit, cas: (nat, string) -> bool, init: string, es: seq<Lock.Event<string>>)
    requires Lock.Fenced(RulesFor(edits, cas), Lock.Start(init), es)
    requires Prepared(edits, Lock.Survivors(Lock.Run(RulesFor(edits, cas), Lock.Start(init), es).writes), init)
    ensures var w := Lock.Run(RulesFor(edits, cas), Lock.Start(init), es);
      var now := TrimSpace(w.file);
      && PlainFile(LinesOf(now)) && OwnSites(now)
      && NearRegions(RegionsOf(LinesOf(now)), Intended(edits, Lock.Survivors(w.writes), RegionsOf(LinesOf(init))))
      && Shrunk(ForeignSites(now).value, ForeignSites(init).value)
      && ToldAll(ForeignSites(now).value) ==
        ToldAll(Adopted(edits, Lock.Survivors(w.writes), ForeignSites(init).value))
  {
    hide ToldAll, Adopted, WellFormed, RegionsOf, LinesOf, Intended, Tame, Ready, IsFile, OwnAddresses, Shrunk,
      SitesOf, TrimSpace,
      PlainFile, OwnSites, ForeignSites, Prepared, Lock.Run, Lock.Fenced, Lock.Survivors, Lock.Chain;
    var items, after := RunOfFiles(edits, cas, init, es);
    TameRunEnds(edits, cas, init, es);
    var w := Lock.Run(RulesFor(edits, cas), Lock.Start(init), es);
    FileIsPrepared(TrimSpace(w.file), after);
    PreparedIsPlain(edits, Lock.Survivors(w.writes), init);
  }

  lemma PreparedIsPlain(edits: nat -> RouteEdit, log: seq<Lock.Write<string>>, init: string)
    requires Prepared(edits, log, init)
    ensures WellFormed(LinesOf(init)) && ForeignSites(init).Ok?
  {
    hide WellFormed, RegionsOf, LinesOf, TopLevel, NoLookalikes, ForeignSites;
  }

  lemma RunOfFiles(edits: nat -> RouteEdit, cas: (nat, string) -> bool, init: string, es: seq<Lock.Event<string>>)
    returns (items: seq<Item>, after: seq<Item>)
    requires Lock.Fenced(RulesFor(edits, cas), Lock.Start(init), es)
    requires Prepared(edits, Lock.Survivors(Lock.Run(RulesFor(edits, cas), Lock.Start(init), es).writes), init)
    ensures WellFormed(LinesOf(init)) && ForeignSites(init) == Ok(SitesOf(items))
    ensures var w := Lock.Run(RulesFor(edits, cas), Lock.Start(init), es);
      && Lock.Chain(RulesFor(edits, cas), init, Lock.Survivors(w.writes), TrimSpace(w.file))
      && Tame(edits, Lock.Survivors(w.writes))
      && IsFile(TrimSpace(w.file), after) && OwnAddresses(after) && Shrunk(SitesOf(after), SitesOf(items))
      && ToldAll(SitesOf(after)) == ToldAll(Adopted(edits, Lock.Survivors(w.writes), SitesOf(items)))
  {
    hide ToldAll, Adopted, WellFormed, LinesOf, Tame, Ready, IsFile, OwnAddresses, Shrunk, SitesOf, TrimSpace,
      ForeignSites, Prepared,
      Lock.Run, Lock.Fenced, Lock.Survivors, Lock.Chain;
    ReadsOnce(edits, cas);
    Lock.NoLostUpdate(RulesFor(edits, cas), init, es);
    var w := Lock.Run(RulesFor(edits, cas), Lock.Start(init), es);
    items := PreparedIsReady(edits, Lock.Survivors(w.writes), init);
    after := ReadyIsTame(edits, cas, init, items, Lock.Survivors(w.writes), TrimSpace(w.file));
  }

  /** And an app that opens an address that no edit names is never lost: its region
      is there after any such run, with the body it had but for runs of empty lines,
      whether or not its name is that of another app's legacy block. */
  lemma UnnamedAppIsNeverLost(edits: nat -> RouteEdit, cas: (nat, string) -> bool, init: string,
                              es: seq<Lock.Event<string>>, app: string, address: string, addresses: seq<string>)
    requires Lock.Fenced(RulesFor(edits, cas), Lock.Start(init), es)
    requires Prepared(edits, Lock.Survivors(Lock.Run(RulesFor(edits, cas), Lock.Start(init), es).writes), init)
    requires Unnamed(edits, Lock.Survivors(Lock.Run(RulesFor(edits, cas), Lock.Start(init), es).writes), app, address)
    requires WellFormed(LinesOf(init)) && app in RegionsOf(LinesOf(init)) && address in addresses
    requires AddressedBy(RegionsOf(LinesOf(init))[app], addresses)
    ensures var now := LinesOf(TrimSpace(Lock.Run(RulesFor(edits, cas), Lock.Start(init), es).file));
      var was := RegionsOf(LinesOf(init))[app];
      WellFormed(now) && app in RegionsOf(now) &&
        (RegionsOf(now)[app] == was || RegionsOf(now)[app] == SqueezeLines(was, 1))
  {
    hide WellFormed, RegionsOf, LinesOf, Tame, IsFile, OwnAddresses, Shrunk, SitesOf, TrimSpace, ForeignSites, Prepared,
      Unnamed, AddressedBy, SqueezeLines, Lock.Run, Lock.Fenced, Lock.Survivors, Lock.Chain, ToldAll, Adopted;
    var items, after := RunOfFiles(edits, cas, init, es);
    var w := Lock.Run(RulesFor(edits, cas), Lock.Start(init), es);
    UnnamedIsKept(edits, cas, init, Lock.Survivors(w.writes), TrimSpace(w.file), app, address, addresses);
  }

  /** Whoever reads the file after such a run finds an app's last block: that of
      the k-th edit nobody took back, if no later one is of its app or proves it
      legacy. Exactly, when the block has no two empty lines in a row. */
  lemma LastBlockIsRead(edits: nat -> RouteEdit, cas: (nat, string) -> bool, init: string,
                        es: seq<Lock.Event<string>>, k: nat)
    requires Lock.Fenced(RulesFor(edits, cas), Lock.Start(init), es)
    requires var log := Lock.Survivors(Lock.Run(RulesFor(edits, cas), Lock.Start(init), es).writes);
      && Prepared(edits, log, init) && k < |log| && Writes(edits(log[k].editor), log[k].before)
      && forall n :: k < n < |log| ==> !Concerns(edits(log[n].editor), AppOf(edits(log[k].editor)))
    ensures var w := Lock.Run(RulesFor(edits, cas), Lock.Start(init), es);
      var write := Lock.Survivors(w.writes)[k];
      var body := BodyBy(edits(write.editor), write.before);
      var found := ExtractBlock(TrimSpace(w.file), AppOf(edits(write.editor)));
      && (found == Bare(Unlines(body)) || found == Bare(Unlines(SqueezeLines(body, 1))))
      && (NoRuns(body) ==> found == Bare(Unlines(body)))
  {
    hide WellFormed, LinesOf, Tame, IsFile, OwnAddresses, Shrunk, SitesOf, TrimSpace, ForeignSites, Prepared,
      ExtractBlock, BodyBy, NoRuns, SqueezeLines, Unlines, Trim, Lock.Run, Lock.Fenced, Lock.Survivors, Lock.Chain,
      ToldAll, Adopted, Writes, Concerns;
    var items, after := RunOfFiles(edits, cas, init, es);
    var w := Lock.Run(RulesFor(edits, cas), Lock.Start(init), es);
    LastBlockReadsBack(edits, cas, init, Lock.Survivors(w.writes), TrimSpace(w.file), k);
  }
}
