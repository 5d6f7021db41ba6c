/** What every step of an edit does to a file of regions and top-level blocks
    (internal/caddy/caddy.go, routes.go). */
module FileEdits {
  import opened Wrappers
  import opened Text
  import opened TextLines
  import opened Regions
  import opened RegionLaws
  import opened RegionEdit
  import opened RouteLex
  import opened Routes
  import opened RouteAddress
  import opened RoutePieces
  import opened RouteSpaces
  import opened RouteItems
  import opened Adoption
  import opened AdoptionExact
  import opened FileItems

  // ---- removing a region ----

  function WithoutRegion(items: seq<Item>, app: string): seq<Item> {
    if items == [] then []
    else
      (if items[0].Managed? && items[0].region.Region? && items[0].region.app == app then [] else [items[0]])
      + WithoutRegion(items[1..], app)
  }

  /** Lines without a marker of the app are kept. */
  lemma {:induction false} RemovePast(ls: seq<string>, rest: seq<string>, app: string, removed: bool)
    requires forall l :: l in ls ==> MarkOf(l) != Begin(app) && MarkOf(l) != End(app)
    ensures RemoveLines(ls + rest, app, false, removed) == KeepLines(ls, RemoveLines(rest, app, false, removed))
    decreases |ls|
  {
    hide MarkOf;
    if ls == [] {
      assert ls + rest == rest;
      var r := RemoveLines(rest, app, false, removed);
      assert r.Ok? ==> [] + r.value.kept == r.value.kept;
    } else {
      assert ls[0] in ls && forall l :: l in ls[1..] ==> l in ls;
      assert (ls + rest)[1..] == ls[1..] + rest;
      RemovePast(ls[1..], rest, app, removed);
      var r := RemoveLines(rest, app, false, removed);
      assert r.Ok? ==> [ls[0]] + (ls[1..] + r.value.kept) == ls + r.value.kept;
    }
  }

  lemma {:induction false} RemoveInside(body: seq<string>, end: string, rest: seq<string>, app: string)
    requires NoMarkers(body) && MarkOf(end) == End(app)
    ensures RemoveLines(body + [end] + rest, app, true, true) == RemoveLines(rest, app, false, true)
    decreases |body|
  {
    hide MarkOf;
    if body == [] {
      assert body + [end] + rest == [end] + rest;
      assert ([end] + rest)[1..] == rest;
    } else {
      assert body[0] in body && forall l :: l in body[1..] ==> l in body;
      assert (body + [end] + rest)[1..] == body[1..] + [end] + rest;
      RemoveInside(body[1..], end, rest, app);
    }
  }

  lemma RemoveOwn(r: Piece, rest: seq<string>, app: string, removed: bool)
    requires r.Region? && r.app == app && MarkOf(r.begin) == Begin(app) && MarkOf(r.end) == End(app) &&
      NoMarkers(r.body)
    ensures RemoveLines(PhysicalOf(r) + rest, app, false, removed) ==
      if removed then Err(Duplicate) else RemoveLines(rest, app, false, true)
  {
    hide MarkOf;
    assert (PhysicalOf(r) + rest)[1..] == r.body + [r.end] + rest;
    RemoveInside(r.body, r.end, rest, app);
  }

  /** An item that is not the app's region holds no marker of the app. */
  lemma NotOwn(it: Item, app: string)
    requires Tight(it) && !(it.Managed? && it.region.app == app)
    ensures forall l :: l in Physical(PiecesOf(it)) ==> MarkOf(l) != Begin(app) && MarkOf(l) != End(app)
  {
    hide MarkOf, ReadTopLine, BraceNet, CodeLine, FreeLine, Closes, OddBackticks, OpenAfter, MarkerPrefixed, LinesOf,
      TightBody, LogicalFrom;
    PhysicalOne(it);
    match it {
      case Managed(r) => PlainLines(r.body);
      case Loose(l) =>
        LooseIsFree(l);
        FreeIsUnit(l);
        PlainLines(LinesOf(l));
      case Options(ls) =>
        SqueezedClean(ls, 0);
        FreesArePlain(ls);
      case Site(ls) =>
        SqueezedClean(ls, 0);
        FreesArePlain(ls);
    }
  }

  lemma {:induction false} FreesArePlain(w: seq<string>)
    requires AllFree(w)
    ensures NoMarkers(Physical(Frees(w)))
  {
    hide MarkOf, FreeLine, LinesOf, Physical, Frees, MarkerPrefixed;
    if w == [] {
      NothingFree();
    } else {
      assert w[0] in w && forall l :: l in w[1..] ==> l in w;
      assert w == [w[0]] + w[1..];
      FirstFree(w[0], w[1..]);
      FreeIsUnit(w[0]);
      PlainLines(LinesOf(w[0]));
      FreesArePlain(w[1..]);
    }
  }

  lemma TightRegionIs(r: Piece)
    requires Tight(Managed(r))
    ensures r.Region? && MarkOf(r.begin) == Begin(r.app) && MarkOf(r.end) == End(r.app) && NoMarkers(r.body)
  {
    hide MarkOf, OddBackticks, OpenAfter, LogicalFrom, FreeLine, Coded, MarkerPrefixed;
    PlainLines(r.body);
  }

  lemma ManagedIsRegion(it: Item)
    requires Tight(it)
    ensures it.Managed? ==> it.region.Region?
  {
  }

  lemma {:induction false} RemovedItems(items: seq<Item>, app: string, removed: bool)
    requires AllTight(items) && RemoveLines(Physical(Pieces(items)), app, false, removed).Ok?
    ensures var rest := WithoutRegion(items, app);
      && RemoveLines(Physical(Pieces(items)), app, false, removed).value.kept == Physical(Pieces(rest))
      && AllTight(rest) && SameSites(rest, items)
  {
    hide Tight, Physical, SameSites, PiecesOf, MarkOf, PhysicalOf;
    if items == [] {
      NothingHere();
      SameSelf([]);
    } else {
      var it, more := items[0], items[1..];
      assert it in items && forall x :: x in more ==> x in items;
      ViewedConcat(PiecesOf(it), Pieces(more));
      var p, ls := Physical(PiecesOf(it)), Physical(Pieces(more));
      assert [it] + more == items;
      ManagedIsRegion(it);
      if it.Managed? && it.region.app == app {
        TightRegionIs(it.region);
        PhysicalOne(it);
        RemoveOwn(it.region, ls, app, removed);
        RemovedItems(more, app, true);
        SiteLessGoes(it);
        SameConcat([], WithoutRegion(more, app), [it], more);
        assert [] + WithoutRegion(more, app) == WithoutRegion(more, app);
      } else {
        NotOwn(it, app);
        RemovePast(p, ls, app, removed);
        RemovedItems(more, app, removed);
        SameSelf([it]);
        SameConcat([it], WithoutRegion(more, app), [it], more);
        assert ([it] + WithoutRegion(more, app))[1..] == WithoutRegion(more, app);
        ViewedConcat(PiecesOf(it), Pieces(WithoutRegion(more, app)));
      }
    }
  }

  /** The lines that are left, or the one of the empty file. */
  lemma KeptFile(items: seq<Item>) returns (after: seq<Item>)
    requires AllTight(items)
    ensures AreFile(KeptLines(Physical(Pieces(items))), after) && SameSites(after, items)
  {
    hide Tight, Physical, FileOpens, PiecesOf, SameSites;
    FilesHaveLines(items);
    after := items;
    SameSelf(items);
    if items == [] {
      EmptyLineIsTight();
      EmptyOpens();
      after := [Loose("")];
      NothingOpened();
      SameAsBefore(after, [], items);
    }
  }

  lemma NothingOpened()
    ensures FileOpens([]) == multiset{}
  {
  }

  lemma TidiedFile(ls: seq<string>, items: seq<Item>) returns (after: seq<Item>)
    requires ls != [] && AreFile(ls, items)
    ensures IsFile(Tidied(Unlines(ls)), after) && SameSites(after, items)
  {
    hide Tight, Physical, FileOpens, SitesOf, PiecesOf, Tidied, CollapsedLines, TrimRightLines, LinesOf, SameSites;
    FilesHaveLines(items);
    LinesOfTidied(ls);
    var squeezed := CollapsedFileItems(ls, items);
    CollapsedSome(ls);
    var trimmed := TrimmedTail(CollapsedLines(ls), squeezed);
    SameTrans(trimmed, squeezed, items);
    after := trimmed;
    if TrimRightLines(CollapsedLines(ls)) != [""] {
      WithEmptyLine(trimmed);
      after := trimmed + [Loose("")];
      SameAsBefore(after, trimmed, items);
    }
  }

  lemma SameAsBefore(after: seq<Item>, same: seq<Item>, before: seq<Item>)
    requires SameSites(same, before) && FileOpens(after) == FileOpens(same) && SitesOf(after) == SitesOf(same)
    ensures SameSites(after, before)
  {
    hide ToldAll, Shrunk, SitesOf, FileOpens;
  }

  /** Removing a region from a file leaves a file of the other items. */
  lemma RemoveFile(text: string, items: seq<Item>, app: string) returns (after: seq<Item>)
    requires IsFile(text, items) && RemoveBlock(text, app).Ok?
    ensures IsFile(RemoveBlock(text, app).value, after) && SameSites(after, items)
  {
    hide Tight, Physical, SameSites, PiecesOf, Tidied, LinesOf, MarkOf, ValidName;
    var target := TrimSpace(app);
    RemovedItems(items, target, false);
    var rest := WithoutRegion(items, target);
    var r := RemoveLines(LinesOf(text), target, false, false).value;
    var kept := KeptFile(rest);
    SameTrans(kept, rest, items);
    UnlinesKept(r.kept);
    FilesHaveLines(kept);
    after := kept;
    if r.removed {
      after := TidiedFile(KeptLines(r.kept), kept);
      SameTrans(after, kept, items);
    } else {
      LinesOfUnlines(KeptLines(r.kept));
    }
  }

  // ---- writing one ----

  lemma RenderedRegion(app: string, body: seq<string>)
    requires ValidName(app) && TightBody(body)
    ensures Tight(Managed(Region(app, BEGIN_PREFIX + app, body, END_PREFIX + app)))
  {
    hide MarkOf, ValidName, TightBody;
    RenderedMark(BEGIN_PREFIX, app);
    RenderedMark(END_PREFIX, app);
    NameHasNoQuote(app);
    TightRegion(app, BEGIN_PREFIX + app, body, END_PREFIX + app);
  }

  lemma NameHasNoQuote(app: string)
    requires ValidName(app)
    ensures !OddBackticks(BEGIN_PREFIX + app) && !OddBackticks(END_PREFIX + app)
  {
    hide OddBackticks;
    NoBackticks(BEGIN_PREFIX + app);
    NoBackticks(END_PREFIX + app);
  }

  lemma PutFile(text: string, items: seq<Item>, app: string, block: string) returns (after: seq<Item>)
    requires IsFile(text, items) && ValidName(app) && TightBody(BodyOf(block))
    ensures IsFile(PutBlock(text, app, block), after)
    ensures Shrunk(SitesOf(after), SitesOf(items)) && ToldAll(SitesOf(after)) == ToldAll(SitesOf(items))
    ensures FileOpens(after) <= FileOpens(items) + Opens(LogicalLines(BodyOf(block)))
  {
    hide Tight, Physical, FileOpens, SitesOf, PiecesOf, LinesOf, MarkOf, Shrunk, ValidName, TightBody, TrimRightLines,
      PutBlock, BodyOf, Opens, ToldAll;
    var body := BodyOf(block);
    LinesOfPut(text, app, block);
    var before := TrimmedTail(LinesOf(text), items);
    var r := Region(app, BEGIN_PREFIX + app, body, END_PREFIX + app);
    RenderedRegion(app, body);
    WithEmptyLine(before);
    var front := before + [Loose("")];
    WithItem(front, Managed(r));
    WithEmptyLine(front + [Managed(r)]);
    after := front + [Managed(r)] + [Loose("")];
    PhysicalOne(Managed(r));
    PutLinesAre(TrimRightLines(LinesOf(text)), app, body);
    TightRegionIs(r);
    RegionOpens(r);
    SitesOfOne(Managed(r));
    assert SitesOf(after) == SitesOf(before);
  }

  lemma PutLinesAre(before: seq<string>, app: string, body: seq<string>)
    ensures PutLines(before, app, body) ==
      before + [""] + PhysicalOf(Region(app, BEGIN_PREFIX + app, body, END_PREFIX + app)) + [""]
  {
  }

  lemma WithItem(items: seq<Item>, it: Item)
    requires AllTight(items) && Tight(it)
    ensures AllTight(items + [it]) && Physical(Pieces(items + [it])) == Physical(Pieces(items)) + Physical(PiecesOf(it))
    ensures FileOpens(items + [it]) == FileOpens(items) + ItemOpens(it)
    ensures it.Managed? ==> SitesOf(items + [it]) == SitesOf(items)
  {
    hide Tight, Physical, FileOpens, PiecesOf, ItemOpens;
    PiecesConcat(items, [it]);
    ViewedConcat(Pieces(items), Pieces([it]));
    OneItem(it);
    FileOpensConcat(items, [it]);
    OneItemOpens(it);
    SitesConcat(items, [it]);
    SitesOfOne(it);
    assert SitesOf(items) + [] == SitesOf(items);
  }

  /** The file with one newline at its end. */
  lemma EndFile(text: string, items: seq<Item>) returns (after: seq<Item>)
    requires IsFile(text, items)
    ensures IsFile(TrimRight(text, IsNewline) + "\n", after) && SameSites(after, items)
  {
    hide Tight, Physical, FileOpens, SitesOf, PiecesOf, LinesOf, TrimRightLines, TrimRight, SameSites;
    SplitTrimRight(text);
    SplitSnoc(TrimRight(text, IsNewline));
    var trimmed := TrimmedTail(LinesOf(text), items);
    WithEmptyLine(trimmed);
    after := trimmed + [Loose("")];
    SameAsBefore(after, trimmed, items);
  }

  // ---- adopting ----

  predicate Touched(b: SiteBlock, hosts: seq<string>) { exists a :: a in b.addresses && AddressHost(a) in hosts }

  lemma EditedIsTouched(b: SiteBlock, hosts: seq<string>)
    requires Edited(b, hosts)
    ensures Touched(b, hosts)
  {
    hide AddressHost;
    if !Touched(b, hosts) {
      KeptAreAddresses(b.addresses, hosts);
      AllKept(b.addresses, hosts);
      WithinByAddress(b, hosts);
    }
  }

  /** Any text the parser reads, heredocs included, comes back as it is when none
      of its foreign blocks serves a requested host. */
  lemma NothingToAdopt(text: string, hosts: seq<string>)
    requires ForeignSites(text).Ok? && forall b :: b in ForeignSites(text).value ==> !Touched(b, hosts)
    ensures AdoptForeign(text, hosts) == Ok(text)
  {
    hide Touched, EditOf, ParseSites, View, Unlines, LinesOf;
    var bs := ForeignSites(text).value;
    forall b | b in bs ensures EditOf(b, hosts).Keep? {
      if Edited(b, hosts) {
        EditedIsTouched(b, hosts);
      }
    }
  }

  lemma {:induction false} AllKept(addresses: seq<string>, hosts: seq<string>)
    requires forall a :: a in addresses ==> AddressHost(a) !in hosts
    ensures KeptAddresses(addresses, hosts) == addresses
  {
    hide AddressHost;
    if addresses != [] {
      assert addresses[0] in addresses && forall a :: a in addresses[1..] ==> a in addresses;
      AllKept(addresses[1..], hosts);
      assert addresses == [addresses[0]] + addresses[1..];
    }
  }

  lemma {:induction false} ItemOpensWithin(items: seq<Item>, p: nat, a: string)
    requires p < |items|
    ensures FileOpens(items)[a] >= ItemOpens(items[p])[a]
  {
    hide ItemOpens;
    if p > 0 {
      ItemOpensWithin(items[1..], p - 1, a);
    }
  }

  /** Two items that open the address count twice. */
  lemma {:induction false} TwoItemsOpen(items: seq<Item>, p: nat, q: nat, a: string)
    requires p < q < |items|
    ensures FileOpens(items)[a] >= ItemOpens(items[p])[a] + ItemOpens(items[q])[a]
  {
    hide ItemOpens;
    if p == 0 {
      ItemOpensWithin(items[1..], q - 1, a);
    } else {
      TwoItemsOpen(items[1..], p - 1, q - 1, a);
    }
  }

  lemma LineOpens(it: Item, l: string, a: string)
    requires l in LinesOfItem(it) && a in Opened(l)
    ensures ItemOpens(it)[a] >= 1
  {
    hide LinesOfItem, Opens;
    OpensMember(LinesOfItem(it), l, a);
  }

  /** An address line and another line of its block that opens the same. */
  lemma LineOpensToo(ls: seq<string>, l: string, a: string)
    requires ls != [] && a in Opened(ls[0]) && l in ls[1..] && a in Opened(l)
    ensures ItemOpens(Site(ls))[a] >= 2
  {
    hide Opened;
    OpensMember(ls[1..], l, a);
    assert a in multiset(Opened(ls[0]));
  }

  lemma SameCodeOpensSame(l: string, ls: seq<string>)
    requires ls != [] && Coded(l) && Coded(ls[0]) && Code(l) == KeyOf(BlockOf(ls))
    ensures Opened(l) == BlockOf(ls).addresses
  {
    hide BraceNet, CodeLine, TrimSpace, SplitAddressLine, ImportLike;
  }

  /** Where a site is. */
  lemma {:induction false} SiteAt(items: seq<Item>, b: SiteBlock) returns (p: nat)
    requires b in SitesOf(items)
    ensures p < |items| && items[p].Site? && items[p].lines != [] && b == BlockOf(items[p].lines)
  {
    hide BlockOf;
    if b in BlocksOf(items[0]) {
      p := 0;
    } else {
      var q := SiteAt(items[1..], b);
      p := q + 1;
    }
  }

  lemma {:induction false} SiteIndex(items: seq<Item>, i: nat) returns (p: nat)
    requires i < |SitesOf(items)|
    ensures p < |items| && items[p].Site? && items[p].lines != [] && SitesOf(items)[i] == BlockOf(items[p].lines)
    ensures SitesOf(items[..p]) == SitesOf(items)[..i]
  {
    hide BlockOf;
    if i < |BlocksOf(items[0])| {
      p := 0;
      assert items[..0] == [];
    } else {
      var q := SiteIndex(items[1..], i - |BlocksOf(items[0])|);
      p := q + 1;
      assert items[..p][1..] == items[1..][..q] && items[..p][0] == items[0];
      assert SitesOf(items[..p]) == BlocksOf(items[0]) + SitesOf(items[1..][..q]);
    }
  }

  lemma LinesAreCoded(it: Item, l: string)
    requires Tight(it) && l in LinesOfItem(it)
    ensures Coded(l)
  {
    hide GoodItem, TightBody, CodeLine, LinesOfItem;
    ItemIsCoded(it);
  }

  /** Own addresses make the address lines of edited blocks unique. */
  lemma OwnKeysDiffer(items: seq<Item>, hosts: seq<string>, i: nat, j: nat)
    requires AllTight(items) && OwnAddresses(items) && i < j < |SitesOf(items)|
    requires Edited(SitesOf(items)[i], hosts)
    ensures KeyOf(SitesOf(items)[i]) != KeyOf(SitesOf(items)[j])
  {
    hide Tight, EditOf, ItemOpens, FileOpens, BlockOf, ReadTopLine, CodeLine, AddressHost, Opened;
    var b, c := SitesOf(items)[i], SitesOf(items)[j];
    var p := SiteIndex(items, i);
    var q := SiteIndex(items, j);
    if KeyOf(b) == KeyOf(c) {
      SitesBefore(items, p, q, i, j);
      EditedIsTouched(b, hosts);
      var a :| a in b.addresses && AddressHost(a) in hosts;
      var first, second := items[p].lines, items[q].lines;
      assert items[p] in items && items[q] in items;
      LinesAreCoded(items[p], first[0]);
      LinesAreCoded(items[q], second[0]);
      BlockKey(first);
      BlockKey(second);
      SameCodeOpensSame(first[0], first);
      SameCodeOpensSame(second[0], first);
      LineOpens(items[p], first[0], a);
      LineOpens(items[q], second[0], a);
      TwoItemsOpen(items, p, q, a);
    }
  }

  lemma SitesBefore(items: seq<Item>, p: nat, q: nat, i: nat, j: nat)
    requires p < |items| && q < |items| && i < j < |SitesOf(items)|
    requires SitesOf(items[..p]) == SitesOf(items)[..i] && SitesOf(items[..q]) == SitesOf(items)[..j]
    ensures p < q
  {
    hide BlocksOf;
    if q <= p {
      assert items[..p] == items[..q] + items[q..p];
      SitesConcat(items[..q], items[q..p]);
    }
  }

  lemma OtherLineKeyDiffers(items: seq<Item>, hosts: seq<string>, p: nat, l: string, b: SiteBlock)
    requires AllTight(items) && OwnAddresses(items) && p < |items| && l in OtherLines(items[p], hosts)
    requires b in SitesOf(items) && Edited(b, hosts)
    ensures Code(l) != KeyOf(b)
  {
    hide Tight, EditOf, ItemOpens, FileOpens, BlockOf, ReadTopLine, CodeLine, AddressHost, Opened, LinesOfItem;
    if Code(l) == KeyOf(b) {
      var it := items[p];
      var q := SiteAt(items, b);
      var ls := items[q].lines;
      assert it in items && items[q] in items;
      OtherIsLine(it, hosts, l);
      LinesAreCoded(it, l);
      SiteHasHead(ls);
      LinesAreCoded(items[q], ls[0]);
      EditedIsTouched(b, hosts);
      var a :| a in b.addresses && AddressHost(a) in hosts;
      BlockKey(ls);
      SameCodeOpensSame(l, ls);
      SameCodeOpensSame(ls[0], ls);
      LineOpens(it, l, a);
      LineOpens(items[q], ls[0], a);
      if p == q {
        LineOpensToo(ls, l, a);
        ItemOpensWithin(items, p, a);
      } else if p < q {
        TwoItemsOpen(items, p, q, a);
      } else {
        TwoItemsOpen(items, q, p, a);
      }
    }
  }

  lemma OtherIsLine(it: Item, hosts: seq<string>, l: string)
    requires l in OtherLines(it, hosts)
    ensures l in LinesOfItem(it)
  {
    hide EditOf, BlockOf;
  }

  lemma SiteHasHead(ls: seq<string>)
    requires ls != []
    ensures ls[0] in LinesOfItem(Site(ls))
  {
  }

  lemma OwnIsUnique(items: seq<Item>, hosts: seq<string>)
    requires AllTight(items) && OwnAddresses(items)
    ensures UniqueAddressLines(items, hosts)
  {
    hide Tight, OwnAddresses, EditOf, Edited, KeyOf, OtherLines, Code;
    var bs := SitesOf(items);
    forall i, j | 0 <= i < j < |bs| && Edited(bs[i], hosts) && Edited(bs[j], hosts)
      ensures KeyOf(bs[i]) != KeyOf(bs[j])
    {
      OwnKeysDiffer(items, hosts, i, j);
    }
    forall it, l | it in items && l in OtherLines(it, hosts) ensures Code(l) !in KeysOf(bs, hosts) {
      var p: nat :| p < |items| && items[p] == it;
      forall b | b in bs && Edited(b, hosts) ensures KeyOf(b) != Code(l) {
        OtherLineKeyDiffers(items, hosts, p, l, b);
      }
    }
  }

  lemma {:induction false} KeptMultiset(addresses: seq<string>, hosts: seq<string>)
    ensures multiset(KeptAddresses(addresses, hosts)) <= multiset(addresses)
  {
    hide AddressHost;
    if addresses != [] {
      KeptMultiset(addresses[1..], hosts);
      assert addresses == [addresses[0]] + addresses[1..];
    }
  }

  lemma PlainlyRewritable(b: SiteBlock, hosts: seq<string>)
    requires Plainly(b)
    ensures Rewritable(b, hosts)
  {
    hide BraceNet, PlainAddress, EditOf, AddressHost;
    KeptAreAddresses(b.addresses, hosts);
  }

  lemma RewrittenBelow(ls: seq<string>, hosts: seq<string>)
    requires GoodItem(Site(ls)) && EditOf(BlockOf(ls), hosts).Rewrite? && Plainly(BlockOf(ls))
    ensures var line := EditOf(BlockOf(ls), hosts).line;
      Tight(Site([line] + ls[1..])) && Below([Site([line] + ls[1..])], [Site(ls)])
  {
    hide ReadTopLine, BraceNet, CodeLine, GoodItem, EditOf, KeptAddresses, Plainly, Rewritten, FileOpens, ItemOpens,
      BlockOf, SitesOf, AddressToken, Shrunk;
    SiteAddresses(ls);
    var b, line := BlockOf(ls), EditOf(BlockOf(ls), hosts).line;
    var kept := KeptAddresses(b.addresses, hosts);
    PlainlyRewritable(b, hosts);
    RewrittenSite(ls, hosts);
    KeptAreAddresses(b.addresses, hosts);
    KeptMultiset(b.addresses, hosts);
    var after := [line] + ls[1..];
    OpenedByHead(after);
    OpenedByHead(ls);
    assert after[1..] == ls[1..];
    OneItemOpens(Site(after));
    OneItemOpens(Site(ls));
    SitesOfOne(Site(after));
    SitesOfOne(Site(ls));
    RewrittenIsPlain(ls, hosts);
    assert LeftOf(BlockOf(after), b);
    ShrunkOne(BlockOf(after), b);
  }

  lemma SiteAddresses(ls: seq<string>)
    requires GoodItem(Site(ls))
    ensures ls != [] && forall a :: a in BlockOf(ls).addresses ==> AddressToken(a)
  {
    hide ReadTopLine, CodeLine, AddressToken, BraceNet, Clean, Closes;
    OpeningAddresses(ls[0]);
  }

  lemma ShrunkOne(c: SiteBlock, b: SiteBlock)
    requires LeftOf(c, b)
    ensures Shrunk([c], [b])
  {
    hide LeftOf;
    assert b in [b];
  }

  lemma OpenedByHead(ls: seq<string>)
    requires ls != []
    ensures ItemOpens(Site(ls)) == multiset(BlockOf(ls).addresses) + Opens(ls[1..])
  {
    hide ReadTopLine, CodeLine;
  }

  lemma RewrittenIsPlain(ls: seq<string>, hosts: seq<string>)
    requires ls != [] && EditOf(BlockOf(ls), hosts).Rewrite? && Plainly(BlockOf(ls))
    requires forall a :: a in BlockOf(ls).addresses ==> AddressToken(a)
    requires var after := [EditOf(BlockOf(ls), hosts).line] + ls[1..];
      BlockOf(after) == SiteBlock(KeptAddresses(BlockOf(ls).addresses, hosts), after)
    ensures Plainly(BlockOf([EditOf(BlockOf(ls), hosts).line] + ls[1..]))
  {
    hide ReadTopLine, BraceNet, CodeLine, EditOf, AddressHost, PlainAddress, Rewritten, AddressToken, BlockOf, Clean;
    var b := BlockOf(ls);
    var kept := KeptAddresses(b.addresses, hosts);
    KeptAreAddresses(b.addresses, hosts);
    RewriteParts(ls, hosts);
    RewrittenIsClean(ls[0], kept);
    BlockKey([EditOf(b, hosts).line] + ls[1..]);
  }

  lemma EditedItem(it: Item, hosts: seq<string>)
    requires Tight(it) && (it.Site? ==> Edited(BlockOf(it.lines), hosts) ==> Plainly(BlockOf(it.lines)))
    ensures AllTight(EditItem(it, hosts)) && Below(EditItem(it, hosts), [it])
  {
    hide Tight, BlockOf, EditOf, Plainly, FileOpens, SitesOf, Shrunk;
    BelowSelf([it]);
    NothingBelow([it]);
    if it.Site? {
      TightSite(it);
      if EditOf(BlockOf(it.lines), hosts).Rewrite? {
        RewrittenBelow(it.lines, hosts);
      }
    }
  }

  lemma TightSite(it: Item)
    requires Tight(it) && it.Site?
    ensures GoodItem(Site(it.lines)) && it.lines != []
  {
  }

  lemma {:induction false} EditedFile(items: seq<Item>, hosts: seq<string>)
    requires AllTight(items) && forall b :: b in SitesOf(items) && Edited(b, hosts) ==> Plainly(b)
    ensures AllTight(EditItems(items, hosts)) && Below(EditItems(items, hosts), items)
  {
    hide Tight, BlockOf, Edited, Plainly, FileOpens, Shrunk, EditItem;
    if items == [] {
      BelowSelf([]);
    } else {
      var it, rest := items[0], items[1..];
      assert it in items && forall x :: x in rest ==> x in items;
      if it.Site? {
        TightSite(it);
        assert BlockOf(it.lines) in BlocksOf(it);
      }
      EditedItem(it, hosts);
      EditedFile(rest, hosts);
      BelowConcat(EditItem(it, hosts), EditItems(rest, hosts), [it], rest);
      assert [it] + rest == items;
    }
  }

  lemma CollapsedEdits(items: seq<Item>) returns (after: seq<Item>)
    requires AllTight(items)
    ensures IsFile(Collapse(FileOf(items)), after) && SameSites(after, items)
  {
    hide Tight, Physical, SameSites, PiecesOf, Collapse, LinesOf, CollapsedLines;
    var start := KeptFile(items);
    var ls := Physical(Pieces(items));
    UnlinesKept(ls);
    FilesHaveLines(start);
    KeptSome(ls);
    CollapsedText(KeptLines(ls));
    after := CollapsedFileItems(KeptLines(ls), start);
    SameTrans(after, start, items);
  }

  lemma KeptSome(ls: seq<string>)
    ensures KeptLines(ls) != []
  {
  }

  /** None of the blocks serves any of the hosts. */
  predicate FreedOf(bs: seq<SiteBlock>, hosts: seq<string>) {
    forall b, a :: b in bs && a in b.addresses ==> AddressHost(a) !in hosts
  }

  ghost predicate FreeOf(items: seq<Item>, hosts: seq<string>) { FreedOf(SitesOf(items), hosts) }

  lemma EditedIsFree(items: seq<Item>, after: seq<Item>, hosts: seq<string>)
    requires GoodItems(items) && Shrunk(SitesOf(after), EditBlocks(SitesOf(items), hosts))
    ensures FreeOf(after, hosts)
  {
    hide EditBlocks, GoodItem, AddressHost, SitesOf, Plainly;
    var bs := SitesOf(items);
    SitesReadable(items);
    forall c, a | c in SitesOf(after) && a in c.addresses ensures AddressHost(a) !in hosts {
      var b :| b in EditBlocks(bs, hosts) && LeftOf(c, b);
      AdoptedHosts(bs, hosts, AddressHost(a));
      ServesByAddress(b, AddressHost(a));
    }
  }

  /** Adopting succeeds on a file whose foreign sites own their addresses, leaves
      every region, and leaves a file free of the hosts: its sites are the ones
      there were, edited. */
  lemma AdoptFile(text: string, items: seq<Item>, hosts: seq<string>) returns (after: seq<Item>)
    requires IsFile(text, items) && OwnAddresses(items)
    requires forall b :: b in SitesOf(items) && Touched(b, hosts) ==> Plainly(b)
    ensures var r := AdoptForeign(text, hosts);
      && r.Ok? && SparesRegions(LinesOf(text), LinesOf(r.value))
      && IsFile(r.value, after) && Below(after, items) && FreeOf(after, hosts)
      && ToldAll(SitesOf(after)) == ToldAll(EditBlocks(SitesOf(items), hosts))
  {
    hide Tight, Physical, FileOpens, SitesOf, PiecesOf, Shrunk, LinesOf, AdoptForeign, EditOf, SparesRegions,
      OwnAddresses, Plainly, Touched, FileOf, EditItems, EditBlocks, UniqueAddressLines, Rewritable, ToldAll;
    TightIsGood(items);
    TextOfFile(text, items);
    OwnIsUnique(items, hosts);
    forall b | b in SitesOf(items) && Edited(b, hosts) ensures Plainly(b) {
      EditedIsTouched(b, hosts);
    }
    forall b | b in SitesOf(items) ensures Rewritable(b, hosts) {
      MayRewrite(b, hosts);
    }
    AdoptReturns(items, hosts);
    AdoptionSparesRegions(items, hosts);
    if forall b :: b in SitesOf(items) ==> EditOf(b, hosts).Keep? {
      NothingEdited(SitesOf(items), hosts);
      after := items;
      BelowSelf(items);
      ShrunkSelf(SitesOf(items));
    } else {
      EditedFile(items, hosts);
      EditItemsGood(items, hosts);
      after := CollapsedEdits(EditItems(items, hosts));
      ShrunkOfBelow(after, EditItems(items, hosts));
      BelowTrans(after, EditItems(items, hosts), items);
    }
    EditedIsFree(items, after, hosts);
  }

  lemma MayRewrite(b: SiteBlock, hosts: seq<string>)
    requires Edited(b, hosts) ==> Plainly(b)
    ensures Rewritable(b, hosts)
  {
    if Edited(b, hosts) {
      PlainlyRewritable(b, hosts);
    }
  }

  lemma ShrunkOfBelow(after: seq<Item>, before: seq<Item>)
    requires Below(after, before)
    ensures Shrunk(SitesOf(after), SitesOf(before))
  {
  }
}
