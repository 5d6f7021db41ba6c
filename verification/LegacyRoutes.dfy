/** When an edit takes away the separate lb-<app> region of older versions, told by
    the region's own lines (internal/caddy/caddy.go). */
module LegacyRoutes {
  import opened Wrappers
  import opened Lines
  import opened Text
  import opened TextLines
  import opened Regions
  import opened RegionLaws
  import opened RegionEdit
  import opened RouteLex
  import opened Routes
  import opened RouteAddress
  import opened Render
  import opened Webhook
  import opened CaddyFile
  import Lock = CaddyLock

  // ---- the addresses of a region ----

  /** Neither blank nor a generation stamp. */
  predicate SaysSomething(l: string) { TrimSpace(l) != "" && !("# TEPLOY GENERATION " <= TrimSpace(l)) }

  /** The first line of the body that says something opens these addresses: they are
      what stands between the commas, before the brace. */
  ghost predicate AddressedBy(body: seq<string>, addresses: seq<string>) {
    exists i :: 0 <= i < |body| && SaysSomething(body[i]) && (forall j :: 0 <= j < i ==> !SaysSomething(body[j]))
      && addresses == SplitAddressLine(TrimSpace(TrimSuffix(TrimSpace(body[i]), "{")))
  }

  lemma {:induction false} HostsAreAddresses(body: seq<string>)
    ensures HostsOfLines(body) != [] ==> AddressedBy(body, HostsOfLines(body))
    ensures forall addresses :: AddressedBy(body, addresses) ==> HostsOfLines(body) == addresses
  {
    hide Trim, TrimSuffix, SplitAddressLine;
    if body != [] {
      HostsAreAddresses(body[1..]);
      if SaysSomething(body[0]) {
        forall addresses | AddressedBy(body, addresses) ensures HostsOfLines(body) == addresses {
          var i :| 0 <= i < |body| && SaysSomething(body[i]) && (forall j :: 0 <= j < i ==> !SaysSomething(body[j]))
            && addresses == SplitAddressLine(TrimSpace(TrimSuffix(TrimSpace(body[i]), "{")));
          assert i == 0;
        }
      } else {
        forall addresses ensures AddressedBy(body, addresses) <==> AddressedBy(body[1..], addresses) {
          LaterAddressed(body, addresses);
        }
      }
    }
  }

  lemma LaterAddressed(body: seq<string>, addresses: seq<string>)
    requires body != [] && !SaysSomething(body[0])
    ensures AddressedBy(body, addresses) <==> AddressedBy(body[1..], addresses)
  {
    hide SaysSomething, TrimSuffix, Trim, SplitAddressLine;
    var rest := body[1..];
    if AddressedBy(body, addresses) {
      var i :| 0 <= i < |body| && SaysSomething(body[i]) && (forall j :: 0 <= j < i ==> !SaysSomething(body[j]))
        && addresses == SplitAddressLine(TrimSpace(TrimSuffix(TrimSpace(body[i]), "{")));
      assert i > 0 && rest[i - 1] == body[i];
      assert forall j :: 0 <= j < i - 1 ==> rest[j] == body[j + 1];
    }
    if AddressedBy(rest, addresses) {
      var i :| 0 <= i < |rest| && SaysSomething(rest[i]) && (forall j :: 0 <= j < i ==> !SaysSomething(rest[j]))
        && addresses == SplitAddressLine(TrimSpace(TrimSuffix(TrimSpace(rest[i]), "{")));
      assert body[i + 1] == rest[i];
      forall j | 0 <= j < i + 1 ensures !SaysSomething(body[j]) {
        assert j > 0 ==> body[j] == rest[j - 1];
      }
    }
  }

  // ---- collapsing and trimming leave them ----

  lemma {:induction false} SqueezedHosts(ls: seq<string>, n: nat)
    ensures HostsOfLines(SqueezeLines(ls, n)) == HostsOfLines(ls)
  {
    hide Trim, TrimSuffix, SplitAddressLine;
    if ls != [] {
      NothingSaid();
      SqueezedHosts(ls[1..], n);
      SqueezedHosts(ls[1..], n + 1);
      SqueezedHosts(ls[1..], 1);
    }
  }

  lemma NothingSaid()
    ensures TrimSpace("") == ""
  {
  }

  lemma {:induction false} HostsBeforeEmpty(ls: seq<string>, n: nat)
    ensures HostsOfLines(ls + Empties(n)) == HostsOfLines(ls)
    decreases |ls|, n
  {
    hide Trim, TrimSuffix, SplitAddressLine;
    NothingSaid();
    if ls != [] {
      assert (ls + Empties(n))[1..] == ls[1..] + Empties(n);
      HostsBeforeEmpty(ls[1..], n);
    } else if n > 0 {
      assert ls + Empties(n) == [""] + Empties(n - 1) && ([""] + Empties(n - 1))[1..] == [] + Empties(n - 1);
      HostsBeforeEmpty([], n - 1);
    } else {
      assert ls + Empties(0) == ls;
    }
  }

  function Empties(n: nat): seq<string> { seq(n, i => "") }

  lemma HostsAfterTrimRight(s: string)
    ensures HostsOfLines(LinesOf(TrimRight(s, IsNewline))) == HostsOfLines(LinesOf(s))
  {
    hide Trim, TrimRight, SplitAddressLine, HostsOfLines, LinesOf, TrimRightLines;
    SplitTrimRight(s);
    var ls := LinesOf(s);
    var r := TrimRightLines(ls);
    assert ls == r + Empties(|ls| - |r|);
    HostsBeforeEmpty(r, |ls| - |r|);
  }

  lemma {:induction false} HostsAfterTrimLeft(s: string)
    ensures HostsOfLines(LinesOf(TrimLeft(s, IsNewline))) == HostsOfLines(LinesOf(s))
  {
    hide SplitAddressLine, LinesOf;
    if s != "" && s[0] == '\n' {
      HostsAfterTrimLeft(s[1..]);
      NothingSaid();
      LinesOfNewline(s[1..]);
      assert s == "\n" + s[1..];
      assert ([""] + LinesOf(s[1..]))[1..] == LinesOf(s[1..]);
    }
  }

  lemma LinesOfNewline(s: string)
    ensures LinesOf("\n" + s) == [""] + LinesOf(s)
  {
    SplitCons('\n', s, '\n');
    assert "\n" == ['\n'];
  }

  /** What the client takes for the addresses of an app's region. */
  lemma ManagedHostsAre(content: string, app: string)
    requires WellFormed(LinesOf(content)) && ValidName(app)
    ensures var regions := RegionsOf(LinesOf(content));
      ManagedBlockHosts(content, app) == if app in regions then HostsOfLines(regions[app]) else []
  {
    hide LinesOf, HostsOfLines, ValidName, WellFormed, RegionsOf, Unlines, TrimLeft, TrimRight, ExtractBlock;
    ExtractReadsRegion(content, app);
    var regions := RegionsOf(LinesOf(content));
    if app in regions {
      var text := Unlines(regions[app]);
      HostsAfterTrimLeft(text);
      HostsAfterTrimRight(TrimLeft(text, IsNewline));
      RegionLines(content, app);
    } else {
      NoHosts();
    }
  }

  lemma NoHosts()
    ensures HostsOfLines(LinesOf("")) == [] && HostsOfLines([]) == []
  {
    SplitEmpty();
    NothingSaid();
    assert [""][1..] == [];
  }

  lemma RegionLines(content: string, app: string)
    requires WellFormed(LinesOf(content)) && app in RegionsOf(LinesOf(content))
    ensures var body := RegionsOf(LinesOf(content))[app]; HostsOfLines(LinesOf(Unlines(body))) == HostsOfLines(body)
  {
    hide LinesOf, HostsOfLines, Unlines, MarkOf;
    LinesOfText(content);
    BodiesAreLines(START, LinesOf(content));
    var body := RegionsOf(LinesOf(content))[app];
    if body == [] {
      NoHosts();
      NothingUnlines();
    } else {
      LinesOfUnlines(body);
    }
  }

  lemma NothingUnlines()
    ensures Unlines([]) == ""
  {
  }

  // ---- when it goes ----

  lemma {:induction false} WithinAll(addresses: seq<string>, hosts: seq<string>)
    requires addresses != [] && forall a :: a in addresses ==> AddressToken(a)
    ensures AddressWithin(JoinAddresses(addresses), hosts) <==> forall a :: a in addresses ==> AddressHost(a) in hosts
  {
    hide AddressHost, AddressToken, AddressWithin;
    var a, rest := addresses[0], addresses[1..];
    assert a in addresses && addresses == [a] + rest;
    OneWithin(a, hosts);
    if rest == [] {
      assert JoinAddresses(addresses) == a;
    } else {
      assert forall x :: x in rest ==> x in addresses;
      WithinAll(rest, hosts);
      var more := JoinAddresses(rest);
      assert a + ", " + more == a + [','] + (" " + more);
      WithinConcat(a, " " + more, hosts);
      BlankWithin(more, hosts);
    }
  }

  lemma OneWithin(a: string, hosts: seq<string>)
    requires AddressToken(a)
    ensures AddressWithin(a, hosts) <==> AddressHost(a) in hosts
  {
    hide AddressHost, Trim;
    SplitLine(a, ',');
    TrimTrimmed(a, IsSpace);
    assert a in Split(a, ',') && forall x :: x in Split(a, ',') ==> x == a;
  }

  lemma WithinConcat(a: string, b: string, hosts: seq<string>)
    ensures AddressWithin(a + [','] + b, hosts) <==> AddressWithin(a, hosts) && AddressWithin(b, hosts)
  {
    hide AddressHost, Trim, Split;
    SplitConcat(a, ',', b);
  }

  lemma BlankWithin(s: string, hosts: seq<string>)
    ensures AddressWithin(" " + s, hosts) <==> AddressWithin(s, hosts)
  {
    hide AddressHost, Trim, Split;
    var r := Split(s, ',');
    SplitCons(' ', s, ',');
    var t := [" " + r[0]] + r[1..];
    assert Split(" " + s, ',') == t;
    BlankInFront(r[0]);
    assert r == [r[0]] + r[1..];
    assert forall a :: a in t <==> a == " " + r[0] || a in r[1..];
    assert forall a :: a in r <==> a == r[0] || a in r[1..];
  }

  /** The addresses an edit manages: its hosts, or, if it has none, those of the
      app's own region. */
  ghost predicate Manages(prev: string, app: string, hosts: seq<string>, managed: seq<string>)
    requires WellFormed(LinesOf(prev))
  {
    var regions := RegionsOf(LinesOf(prev));
    if hosts != [] then managed == hosts
    else if app in regions && exists own :: AddressedBy(regions[app], own) then AddressedBy(regions[app], managed)
    else managed == []
  }

  /** The region of lb-<app> goes exactly when its first line that says something
      opens some address, and only addresses of hosts that the edit manages. */
  lemma LegacyGoesIff(prev: string, app: string, hosts: seq<string>, managed: seq<string>, addresses: seq<string>)
    requires WellFormed(LinesOf(prev)) && ValidName(app) && Manages(prev, app, hosts, managed)
    requires var regions := RegionsOf(LinesOf(prev));
      "lb-" + app in regions && AddressedBy(regions["lb-" + app], addresses)
    ensures LegacyGoes(prev, app, hosts) <==>
      addresses != [] && forall a :: a in addresses ==> AddressHost(a) in managed
  {
    hide LinesOf, HostsOfLines, ValidName, WellFormed, RegionsOf, AddressedBy, AddressWithin, JoinAddresses,
      AddressHost;
    LegacyName(app);
    ManagedHostsAre(prev, "lb-" + app);
    ManagedHostsAre(prev, app);
    var regions := RegionsOf(LinesOf(prev));
    HostsAreAddresses(regions["lb-" + app]);
    if app in regions {
      HostsAreAddresses(regions[app]);
    }
    AddressesAreTokens(regions["lb-" + app], addresses);
    if addresses != [] {
      WithinAll(addresses, if hosts == [] then ManagedBlockHosts(prev, app) else hosts);
    }
  }

  lemma AddressesAreTokens(body: seq<string>, addresses: seq<string>)
    requires AddressedBy(body, addresses)
    ensures forall a :: a in addresses ==> AddressToken(a)
  {
    hide Trim, TrimSuffix, SplitAddressLine, SaysSomething, AddressToken;
    var i :| 0 <= i < |body| && SaysSomething(body[i]) && (forall j :: 0 <= j < i ==> !SaysSomething(body[j]))
      && addresses == SplitAddressLine(TrimSpace(TrimSuffix(TrimSpace(body[i]), "{")));
    TokensOf(TrimSpace(TrimSuffix(TrimSpace(body[i]), "{")));
  }

  /** So an app called lb-<app> keeps its region through an edit of <app>, but for
      runs of empty lines, if and only if it opens some address of another host. */
  lemma OtherAppStaysIff(prev: string, app: string, hosts: seq<string>, block: string, managed: seq<string>,
                         addresses: seq<string>)
    requires WellFormed(LinesOf(prev)) && ValidName(app) && NoMarkers(LinesOf(block))
    requires AdoptionSpares(prev, app, hosts) && Manages(prev, app, hosts, managed)
    requires var regions := RegionsOf(LinesOf(prev));
      "lb-" + app in regions && AddressedBy(regions["lb-" + app], addresses)
    ensures var r := RenderUpdated(prev, app, hosts, block);
      && r.Ok? && WellFormed(LinesOf(r.value))
      && var was, now := RegionsOf(LinesOf(prev))["lb-" + app], RegionsOf(LinesOf(r.value));
        && ("lb-" + app in now <==> addresses == [] || exists a :: a in addresses && AddressHost(a) !in managed)
        && ("lb-" + app in now ==> now["lb-" + app] == was || now["lb-" + app] == SqueezeLines(was, 1))
  {
    hide LinesOf, ValidName, WellFormed, RegionsOf, AddressedBy, LegacyGoes, RenderUpdated, AdoptionSpares, NoMarkers,
      AddressHost, SqueezeLines, BodyOf, Manages;
    LegacyName(app);
    RenderKeeps(prev, app, hosts, block);
    LegacyGoesIff(prev, app, hosts, managed, addresses);
  }

  // ---- over a run ----

  /** The edit names the host of the address: among its hosts, or, if it has none, in
      the app's own region of the text. */
  ghost predicate Names(e: BlockEdit, prev: string, address: string) {
    WellFormed(LinesOf(prev)) ==>
      forall managed :: Manages(prev, e.app, e.hosts, managed) ==> AddressHost(address) in managed
  }

  /** No edit is of the app, and none of the app it could be the legacy of names the
      address. */
  ghost predicate Unnamed(edits: nat -> RouteEdit, log: seq<Lock.Write<string>>, app: string, address: string) {
    forall n :: 0 <= n < |log| ==>
      var e := edits(log[n].editor);
      && AppOf(e) != app
      && (e.Upsert? && "lb-" + e.upsert.app == app ==> !Names(e.upsert, log[n].before, address))
  }

  lemma SqueezedAddresses(body: seq<string>, addresses: seq<string>)
    requires AddressedBy(body, addresses) && addresses != []
    ensures AddressedBy(SqueezeLines(body, 1), addresses)
  {
    hide AddressedBy, HostsOfLines, SqueezeLines;
    HostsAreAddresses(body);
    SqueezedHosts(body, 1);
    HostsAreAddresses(SqueezeLines(body, 1));
  }

  /** One edit of someone else keeps the region. */
  lemma StepKeepsUnnamed(prev: string, e: RouteEdit, seen: string, app: string, address: string, addresses: seq<string>)
    requires WellFormed(LinesOf(prev)) && WellFormed(LinesOf(seen)) && GoodRoute(e) && AppOf(e) != app
    requires e.Upsert? && "lb-" + e.upsert.app == app ==> !Names(e.upsert, prev, address)
    requires NearRegions(RegionsOf(LinesOf(seen)), Means(RegionsOf(LinesOf(prev)), e, prev))
    requires app in RegionsOf(LinesOf(prev)) && address in addresses
    requires AddressedBy(RegionsOf(LinesOf(prev))[app], addresses)
    ensures var was, now := RegionsOf(LinesOf(prev))[app], RegionsOf(LinesOf(seen));
      app in now && (now[app] == was || now[app] == SqueezeLines(was, 1)) && AddressedBy(now[app], addresses)
  {
    hide WellFormed, LinesOf, RegionsOf, AddressedBy, LegacyGoes, SqueezeLines, WrittenBody, RenewedBody, ExtractBlock,
      AddressHost, ValidName, NoMarkers, GoodConfig, Manages;
    SqueezedAddresses(RegionsOf(LinesOf(prev))[app], addresses);
    if e.Upsert? && "lb-" + e.upsert.app == app {
      var managed :| Manages(prev, e.upsert.app, e.upsert.hosts, managed) && AddressHost(address) !in managed;
      LegacyGoesIff(prev, e.upsert.app, e.upsert.hosts, managed, addresses);
    }
  }

  /** An app whose addresses no edit names keeps its region over any chain of edits,
      but for runs of empty lines. */
  lemma {:induction false} UnnamedIsKept(edits: nat -> RouteEdit, cas: (nat, string) -> bool, init: string,
                                         log: seq<Lock.Write<string>>, seen: string, app: string, address: string,
                                         addresses: seq<string>)
    requires WellFormed(LinesOf(init)) && Tame(edits, log) && Lock.Chain(RulesFor(edits, cas), init, log, seen)
    requires app in RegionsOf(LinesOf(init)) && address in addresses
    requires AddressedBy(RegionsOf(LinesOf(init))[app], addresses) && Unnamed(edits, log, app, address)
    ensures WellFormed(LinesOf(seen))
    ensures var was, now := RegionsOf(LinesOf(init))[app], RegionsOf(LinesOf(seen));
      app in now && (now[app] == was || now[app] == SqueezeLines(was, 1)) && AddressedBy(now[app], addresses)
  {
    hide WellFormed, LinesOf, RegionsOf, AddressedBy, SqueezeLines, Names, GoodRoute, Spares, ApplyRoute, TrimSpace,
      NearRegions, Means;
    if log == [] {
      Read(init);
    } else {
      hide Lock.Chain;
      var front, last := log[..|log| - 1], log[|log| - 1];
      ChainParts(edits, cas, init, log, seen);
      forall n | 0 <= n < |front|
        ensures GoodRoute(edits(front[n].editor)) && Spares(front[n].before, edits(front[n].editor))
        ensures var e := edits(front[n].editor);
          AppOf(e) != app && (e.Upsert? && "lb-" + e.upsert.app == app ==> !Names(e.upsert, front[n].before, address))
      {
        assert front[n] == log[n];
      }
      UnnamedIsKept(edits, cas, init, front, last.before, app, address, addresses);
      RouteStep(last.before, edits(last.editor), last.after);
      StepKeepsUnnamed(last.before, edits(last.editor), seen, app, address, addresses);
      SqueezeTwice(RegionsOf(LinesOf(init))[app]);
    }
  }
}
