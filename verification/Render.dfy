/** One edit of the Caddyfile's text, and any run of them
    (internal/caddy/caddy.go). */
module Render {
  import opened Wrappers
  import opened Lines
  import opened Text
  import opened TextLines
  import opened Regions
  import opened RegionLaws
  import opened RegionEdit
  import opened RouteLex
  import opened Routes
  import opened AdoptionExact

  datatype EditError = BadMarkers(marker: RemoveError) | BadRoutes(route: RouteError) | NoSiteBlock

  const GENERATION_PREFIX := "# TEPLOY GENERATION "

  // ---- the legacy block of an app ----

  function HostsOfLines(ls: seq<string>): seq<string> {
    if ls == [] then []
    else
      var t := TrimSpace(ls[0]);
      if t == "" || GENERATION_PREFIX <= t then HostsOfLines(ls[1..])
      else SplitAddressLine(TrimSpace(TrimSuffix(t, "{")))
  }

  /** The addresses of an app's managed block. */
  function ManagedBlockHosts(content: string, app: string): seq<string> {
    HostsOfLines(LinesOf(ExtractBlock(content, app)))
  }

  predicate AddressWithin(addr: string, hosts: seq<string>) {
    forall a :: a in Split(addr, ',') ==> AddressHost(TrimSpace(a)) in hosts
  }

  /** Is there a separate lb-<app> block that serves what this edit manages? */
  predicate LegacyGoes(prev: string, app: string, hosts: seq<string>) {
    var legacy := ManagedBlockHosts(prev, "lb-" + app);
    legacy != [] && AddressWithin(JoinAddresses(legacy), if hosts == [] then ManagedBlockHosts(prev, app) else hosts)
  }

  // ---- one edit ----

  function RemoveLegacy(prev: string, updated: string, app: string, hosts: seq<string>): Result<string, EditError> {
    if !LegacyGoes(prev, app, hosts) then Ok(updated)
    else match RemoveBlock(updated, "lb-" + app)
      case Err(e) => Err(BadMarkers(e))
      case Ok(r) => Ok(r)
  }

  function Adopt(updated: string, hosts: seq<string>): Result<string, EditError> {
    if hosts == [] then Ok(updated)
    else match AdoptForeign(updated, hosts)
      case Err(e) => Err(BadRoutes(e))
      case Ok(r) => Ok(r)
  }

  function RenderUpdated(prev: string, app: string, hosts: seq<string>, block: string): Result<string, EditError> {
    match RemoveBlock(prev, app)
    case Err(e) => Err(BadMarkers(e))
    case Ok(removed) =>
      match RemoveLegacy(prev, removed, app, hosts)
      case Err(e) => Err(e)
      case Ok(rid) =>
        match Adopt(rid, hosts)
        case Err(e) => Err(e)
        case Ok(updated) =>
          Ok(if block != "" then PutBlock(updated, app, block) else TrimRight(updated, IsNewline) + "\n")
  }

  // ---- what it keeps ----

  /** The same regions, each as it was or with runs of empty lines collapsed. */
  ghost predicate NearRegions(after: map<string, seq<string>>, before: map<string, seq<string>>) {
    && after.Keys == before.Keys
    && forall a :: a in after ==> after[a] == before[a] || after[a] == SqueezeLines(before[a], 1)
  }

  lemma NearTrans(c: map<string, seq<string>>, b: map<string, seq<string>>, a: map<string, seq<string>>)
    requires NearRegions(c, b) && NearRegions(b, a)
    ensures NearRegions(c, a)
  {
    forall k | k in c ensures c[k] == a[k] || c[k] == SqueezeLines(a[k], 1) {
      SqueezeTwice(a[k]);
    }
  }

  lemma NearWithout(b: map<string, seq<string>>, a: map<string, seq<string>>, app: string)
    requires NearRegions(b, a)
    ensures NearRegions(b - {app}, a - {app})
  {
  }

  /** Adoption, when it runs, leaves the managed regions. */
  ghost predicate AdoptionSpares(prev: string, app: string, hosts: seq<string>) {
    var removed := RemoveBlock(prev, app);
    removed.Ok? ==>
      var rid := RemoveLegacy(prev, removed.value, app, hosts);
      rid.Ok? ==>
        var updated := Adopt(rid.value, hosts);
        updated.Ok? && SparesRegions(LinesOf(rid.value), LinesOf(updated.value))
  }

  /** The regions after an edit, as the edit means them. */
  function Meant(regions: map<string, seq<string>>, app: string, legacyGoes: bool,
                 block: string): map<string, seq<string>> {
    var others := regions - (if legacyGoes then {app, "lb-" + app} else {app});
    if block == "" then others else others[app := BodyOf(block)]
  }

  lemma RemoveNear(content: string, app: string)
    requires WellFormed(LinesOf(content)) && ValidName(app)
    ensures var r, before := RemoveBlock(content, app), RegionsOf(LinesOf(content));
      r.Ok? && WellFormed(LinesOf(r.value)) && NearRegions(RegionsOf(LinesOf(r.value)), before - {app})
    ensures NonEmpty(Outside(LinesOf(RemoveBlock(content, app).value))) == NonEmpty(Outside(LinesOf(content)))
  {
    hide WellFormed, RegionsOf, LinesOf, Outside, RemoveBlock, ValidName;
    RemoveBlockKeeps(content, app);
  }

  lemma LegacyName(app: string)
    requires ValidName(app)
    ensures ValidName("lb-" + app) && "lb-" + app != app
  {
    assert ("lb-" + app)[|"lb-" + app| - 1] == app[|app| - 1];
    assert |"lb-" + app| == |app| + 3;
  }

  lemma RemoveLegacyNear(prev: string, updated: string, app: string, hosts: seq<string>)
    requires WellFormed(LinesOf(updated)) && ValidName(app)
    ensures var r, before := RemoveLegacy(prev, updated, app, hosts), RegionsOf(LinesOf(updated));
      && r.Ok? && WellFormed(LinesOf(r.value))
      && NearRegions(RegionsOf(LinesOf(r.value)), if LegacyGoes(prev, app, hosts) then before - {"lb-" + app}
        else before)
      && NonEmpty(Outside(LinesOf(r.value))) == NonEmpty(Outside(LinesOf(updated)))
  {
    hide WellFormed, RegionsOf, LinesOf, Outside, RemoveBlock, ValidName, LegacyGoes;
    LegacyName(app);
    if LegacyGoes(prev, app, hosts) {
      RemoveNear(updated, "lb-" + app);
    }
  }

  lemma EndWithNewline(updated: string)
    requires WellFormed(LinesOf(updated))
    ensures SameFile(LinesOf(TrimRight(updated, IsNewline) + "\n"), LinesOf(updated))
  {
    hide WellFormed, RegionsOf, LinesOf, Outside, TrimRight, TrimRightLines;
    SplitTrimRight(updated);
    TrimRightKeeps(LinesOf(updated));
    SplitSnoc(TrimRight(updated, IsNewline));
    SnocEmptyKeeps(TrimRightLines(LinesOf(updated)));
  }

  lemma MeantOf(regions: map<string, seq<string>>, app: string, goes: bool, block: string,
                removed: map<string, seq<string>>, rid: map<string, seq<string>>, adopted: map<string, seq<string>>,
                  written: map<string, seq<string>>)
    requires NearRegions(removed, regions - {app})
    requires NearRegions(rid, if goes then removed - {"lb-" + app} else removed)
    requires NearRegions(adopted, rid)
    requires written == if block == "" then adopted else adopted[app := BodyOf(block)]
    ensures app !in adopted && NearRegions(written, Meant(regions, app, goes, block))
  {
    hide BodyOf, SqueezeLines;
    var others := regions - (if goes then {app, "lb-" + app} else {app});
    if goes {
      NearWithout(removed, regions - {app}, "lb-" + app);
      assert regions - {app} - {"lb-" + app} == others;
    }
    NearTrans(rid, if goes then removed - {"lb-" + app} else removed, others);
    NearTrans(adopted, rid, others);
  }

  /** One edit: it succeeds on a well-formed file, puts exactly its block in the
      app's region, takes away no other region but a proven legacy one, and
      leaves every other region's body but for runs of empty lines. */
  lemma RenderKeeps(prev: string, app: string, hosts: seq<string>, block: string)
    requires WellFormed(LinesOf(prev)) && ValidName(app) && NoMarkers(LinesOf(block))
    requires AdoptionSpares(prev, app, hosts)
    ensures var r := RenderUpdated(prev, app, hosts, block);
      && r.Ok? && WellFormed(LinesOf(r.value))
      && NearRegions(RegionsOf(LinesOf(r.value)),
        Meant(RegionsOf(LinesOf(prev)), app, LegacyGoes(prev, app, hosts), block))
      && (block != "" ==> app in RegionsOf(LinesOf(r.value)) && RegionsOf(LinesOf(r.value))[app] == BodyOf(block))
  {
    hide WellFormed, RegionsOf, LinesOf, Outside, RemoveBlock, ValidName, LegacyGoes, RemoveLegacy, AdoptForeign,
      PutBlock, TrimRight, BodyOf, NoMarkers;
    RemoveNear(prev, app);
    var removed := RemoveBlock(prev, app).value;
    RemoveLegacyNear(prev, removed, app, hosts);
    var rid := RemoveLegacy(prev, removed, app, hosts).value;
    var updated := Adopt(rid, hosts).value;
    SparedNear(rid, updated);
    var goes := LegacyGoes(prev, app, hosts);
    var adopted := RegionsOf(LinesOf(updated));
    MeantOf(RegionsOf(LinesOf(prev)), app, goes, block, RegionsOf(LinesOf(removed)), RegionsOf(LinesOf(rid)), adopted,
      if block == "" then adopted else adopted[app := BodyOf(block)]);
    if block != "" {
      PutBlockKeeps(updated, app, block);
    } else {
      EndWithNewline(updated);
    }
  }

  lemma SparedNear(before: string, after: string)
    requires WellFormed(LinesOf(before)) && SparesRegions(LinesOf(before), LinesOf(after))
    ensures WellFormed(LinesOf(after)) && NearRegions(RegionsOf(LinesOf(after)), RegionsOf(LinesOf(before)))
  {
    hide WellFormed, RegionsOf, LinesOf;
  }

  /** Without adoption an edit also leaves every line outside the regions that is
      not empty. */
  lemma RenderKeepsOutside(prev: string, app: string, block: string)
    requires WellFormed(LinesOf(prev)) && ValidName(app) && NoMarkers(LinesOf(block))
    ensures var r := RenderUpdated(prev, app, [], block);
      r.Ok? && WellFormed(LinesOf(r.value)) && NonEmpty(Outside(LinesOf(r.value))) == NonEmpty(Outside(LinesOf(prev)))
  {
    hide WellFormed, RegionsOf, LinesOf, Outside, RemoveBlock, ValidName, LegacyGoes, RemoveLegacy, PutBlock,
      TrimRight, BodyOf, NoMarkers;
    RemoveNear(prev, app);
    var removed := RemoveBlock(prev, app).value;
    RemoveLegacyNear(prev, removed, app, []);
    var rid := RemoveLegacy(prev, removed, app, []).value;
    if block != "" {
      NoRegionLeft(prev, removed, rid, app);
      PutBlockKeeps(rid, app, block);
    } else {
      EndWithNewline(rid);
    }
  }

  lemma NoRegionLeft(prev: string, removed: string, rid: string, app: string)
    requires WellFormed(LinesOf(prev)) && WellFormed(LinesOf(removed)) && WellFormed(LinesOf(rid)) && ValidName(app)
    requires NearRegions(RegionsOf(LinesOf(removed)), RegionsOf(LinesOf(prev)) - {app})
    requires RemoveLegacy(prev, removed, app, []) == Ok(rid)
    ensures app !in RegionsOf(LinesOf(rid))
  {
    hide WellFormed, RegionsOf, LinesOf, RemoveLegacy, ValidName, LegacyGoes;
    RemoveLegacyNear(prev, removed, app, []);
  }
}
