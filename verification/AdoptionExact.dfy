/** The main results about adopting foreign site blocks
    (internal/caddy/routes.go). */
module AdoptionExact {
  import opened Wrappers
  import opened Lines
  import opened Text
  import opened TextLines
  import opened Regions
  import opened RegionLaws
  import opened RouteLex
  import opened Routes
  import opened RouteAddress
  import opened RoutePieces
  import opened RouteItems
  import opened Adoption

  function FileOf(items: seq<Item>): string { Unlines(Physical(Pieces(items))) }

  /** The blocks of a file outside its managed regions, as the next edit sees them. */
  function ForeignSites(content: string): Result<seq<SiteBlock>, RouteError> {
    ParseSites(Unlines(View(LinesOf(content), false)))
  }

  // ---- files and their lines ----

  lemma {:induction false} FreesAreGood(ls: seq<string>)
    requires AllClean(ls)
    ensures GoodPieces(Frees(ls)) && (ls != [] ==> Frees(ls) != [])
  {
    hide FreeLine, Coded, HeredocTerminator, Calm;
    if ls != [] {
      assert ls[0] in ls && forall l :: l in ls[1..] ==> l in ls;
      assert Clean(ls[0]);
      FreesAreGood(ls[1..]);
    }
  }

  lemma {:induction false} PiecesAreGood(items: seq<Item>)
    requires GoodItems(items)
    ensures GoodPieces(Pieces(items)) && (items != [] ==> Pieces(items) != [])
  {
    hide FreeLine, GoodRegion, Coded, HeredocTerminator, Calm, ReadTopLine, Closes;
    if items != [] {
      var it := items[0];
      assert it in items && forall x :: x in items[1..] ==> x in items;
      PiecesAreGood(items[1..]);
      assert GoodItem(it);
      match it {
        case Managed(r) =>
        case Loose(l) => assert Clean(l);
        case Options(ls) => FreesAreGood(ls);
        case Site(ls) => FreesAreGood(ls);
      }
    }
  }

  lemma PhysicalOfLines(p: Piece)
    requires GoodPiece(p)
    ensures AreLines(PhysicalOf(p))
  {
    hide MarkOf, OddBackticks, OpenAfter, MarkerPrefixed;
    if p.Free? {
      LinesOfText(p.line);
    }
  }

  lemma {:induction false} PhysicalAreLines(ps: seq<Piece>)
    requires GoodPieces(ps)
    ensures forall l :: l in Physical(ps) ==> '\n' !in l
    ensures ps != [] ==> Physical(ps) != []
  {
    hide GoodPiece, PhysicalOf;
    if ps != [] {
      assert ps[0] in ps && forall p :: p in ps[1..] ==> p in ps;
      PhysicalOfLines(ps[0]);
      PhysicalAreLines(ps[1..]);
    }
  }

  lemma {:induction false} ViewAreLines(ls: seq<string>, inManaged: bool)
    requires forall l :: l in ls ==> '\n' !in l
    ensures forall l :: l in View(ls, inManaged) ==> '\n' !in l
    ensures |View(ls, inManaged)| == |ls|
  {
    hide OpensRegion, ClosesRegion;
    if ls != [] {
      assert ls[0] in ls && forall l :: l in ls[1..] ==> l in ls;
      var now := OpensRegion(ls[0]) || (inManaged && !ClosesRegion(ls[0]));
      ViewAreLines(ls[1..], now);
    }
  }

  /** The foreign blocks of a text, from its lines. */
  lemma ForeignOfLines(ls: seq<string>)
    requires AreLines(ls)
    ensures ForeignSites(Unlines(ls)) == ParseFrom(LogicalLines(View(ls, false)), 0, None)
  {
    hide View, ParseFrom;
    LinesOfUnlines(ls);
    ViewAreLines(ls, false);
    LinesOfUnlines(View(ls, false));
  }

  lemma FileLines(items: seq<Item>)
    requires GoodItems(items) && items != []
    ensures AreLines(Physical(Pieces(items))) && LinesOf(FileOf(items)) == Physical(Pieces(items))
  {
    hide GoodItems, GoodPieces, LinesOf;
    PiecesAreGood(items);
    PhysicalAreLines(Pieces(items));
    LinesOfUnlines(Physical(Pieces(items)));
  }

  /** A file's foreign blocks are its site items. */
  lemma ForeignOfFile(items: seq<Item>)
    requires GoodItems(items) && items != []
    ensures ForeignSites(FileOf(items)) == Ok(SitesOf(items))
  {
    hide GoodItems, GoodPieces, ParseFrom, View;
    FileLines(items);
    ForeignOfLines(Physical(Pieces(items)));
    PiecesAreGood(items);
    PhysicalViews(Pieces(items));
    ParseItems(items);
  }

  // ---- rewritten items are items ----

  lemma {:induction false} SqueezeOneLine(l: string)
    requires '\n' !in l
    ensures Squeeze(l, 0) == l
  {
    if l != "" {
      assert l[0] in l && forall c :: c in l[1..] ==> c in l;
      SqueezeOneLine(l[1..]);
      assert l == [l[0]] + l[1..];
    }
  }

  lemma OneLineIsFree(l: string)
    requires '\n' !in l && !OddBackticks(l) && (TrimSpace(l) == "" || TrimSpace(l)[0] != '#')
    ensures FreeLine(l)
  {
    hide TrimSpace, OddBackticks;
    SplitLine(l, '\n');
    SqueezeOneLine(l);
    assert BEGIN_PREFIX[0] == '#' && END_PREFIX[0] == '#';
  }

  lemma {:induction false} KeptAreAddresses(addresses: seq<string>, hosts: seq<string>)
    ensures forall a :: a in KeptAddresses(addresses, hosts) ==> a in addresses && AddressHost(a) !in hosts
    ensures |KeptAddresses(addresses, hosts)| <= |addresses|
    ensures |KeptAddresses(addresses, hosts)| == |addresses| ==> KeptAddresses(addresses, hosts) == addresses
    ensures forall a :: a in addresses && AddressHost(a) !in hosts ==> a in KeptAddresses(addresses, hosts)
  {
    hide AddressHost;
    if addresses != [] {
      KeptAreAddresses(addresses[1..], hosts);
      assert addresses == [addresses[0]] + addresses[1..];
    }
  }

  lemma OpeningParts(raw: string, code: string)
    requires ReadTopLine(raw, code).Opening?
    ensures ReadTopLine(raw, code).block.addresses == SplitAddressLine(TrimSpace(TrimSuffix(TrimSpace(code), "{")))
  {
    hide SplitAddressLine, ImportLike, BraceNet, Trim;
  }

  lemma OpeningAddresses(l: string)
    requires ReadTopLine(l, Code(l)).Opening?
    ensures forall a :: a in ReadTopLine(l, Code(l)).block.addresses ==> AddressToken(a)
  {
    hide AddressToken, SplitAddressLine, ReadTopLine, Code, TrimSpace, TrimSuffix;
    OpeningParts(l, Code(l));
    TokensOf(TrimSpace(TrimSuffix(TrimSpace(Code(l)), "{")));
  }

  lemma RewriteParts(ls: seq<string>, hosts: seq<string>)
    requires ls != [] && EditOf(BlockOf(ls), hosts).Rewrite?
    ensures var kept := KeptAddresses(BlockOf(ls).addresses, hosts);
      kept != [] && EditOf(BlockOf(ls), hosts).line == Rewritten(ls[0], kept)
  {
    hide ReadTopLine, AddressHosts, KeptAddresses;
  }

  /** An address line and a body that make a site item. */
  lemma SiteOfLines(line: string, kept: seq<string>, more: seq<string>)
    requires Clean(line) && AllClean(more) && Closes(more, Net(line))
    requires ReadTopLine(line, Code(line)) == Opening(SiteBlock(kept, [line]))
    ensures GoodItem(Site([line] + more)) && BlockOf([line] + more) == SiteBlock(kept, [line] + more)
  {
    hide ReadTopLine, Clean, Closes, Code, Net;
    assert ([line] + more)[1..] == more;
  }

  lemma RewrittenIsClean(first: string, kept: seq<string>)
    requires kept != [] && forall a :: a in kept ==> AddressToken(a) && PlainAddress(a)
    ensures var r := Rewritten(first, kept);
      Clean(r) && Code(r) == r && BraceNet(r) == 1 && ReadTopLine(r, r) == Opening(SiteBlock(kept, [r]))
  {
    hide ReadTopLine, BraceNet, CodeFrom, HeredocTerminator, FreeLine, PlainAddress, AddressToken, OddBackticks,
      TrimSpace;
    RewrittenReadsBack(first, kept);
    OneLineIsFree(Rewritten(first, kept));
  }

  lemma RewrittenSite(ls: seq<string>, hosts: seq<string>)
    requires GoodItem(Site(ls)) && EditOf(BlockOf(ls), hosts).Rewrite? && Rewritable(BlockOf(ls), hosts)
    ensures var line, kept := EditOf(BlockOf(ls), hosts).line, KeptAddresses(BlockOf(ls).addresses, hosts);
      && GoodItem(Site([line] + ls[1..]))
      && BlockOf([line] + ls[1..]) == SiteBlock(kept, [line] + ls[1..])
  {
    hide ReadTopLine, BraceNet, CodeFrom, HeredocTerminator, FreeLine, EditOf, PlainAddress, AddressToken,
      OddBackticks, TrimSpace, Clean, Closes, Rewritten;
    var kept, line := KeptAddresses(BlockOf(ls).addresses, hosts), EditOf(BlockOf(ls), hosts).line;
    RewriteParts(ls, hosts);
    OpeningAddresses(ls[0]);
    KeptAreAddresses(BlockOf(ls).addresses, hosts);
    RewrittenIsClean(ls[0], kept);
    assert Net(line) == Net(ls[0]);
    assert forall l :: l in ls[1..] ==> l in ls;
    SiteOfLines(line, kept, ls[1..]);
  }

  lemma EditItemGood(it: Item, hosts: seq<string>)
    requires GoodItem(it) && (it.Site? ==> Rewritable(BlockOf(it.lines), hosts))
    ensures GoodItems(EditItem(it, hosts)) && SitesOf(EditItem(it, hosts)) ==
      if it.Site? then EditBlock(BlockOf(it.lines), hosts) else []
  {
    hide ReadTopLine, CodeLine, HeredocTerminator, FreeLine, EditOf, Rewritable, Closes, BlockOf, AllClean,
      LogicalLines, GoodRegion;
    if it.Site? && EditOf(BlockOf(it.lines), hosts).Rewrite? {
      RewrittenSite(it.lines, hosts);
      BlockParts(it.lines);
    }
    forall x: Item ensures SitesOf([x]) == BlocksOf(x) {
      assert [x][1..] == [];
      assert BlocksOf(x) + [] == BlocksOf(x);
    }
  }

  lemma BlockParts(ls: seq<string>)
    requires ls != []
    ensures BlockOf(ls).lines == ls
  {
  }

  lemma {:induction false} SitesConcat(a: seq<Item>, b: seq<Item>)
    ensures SitesOf(a + b) == SitesOf(a) + SitesOf(b)
  {
    hide BlocksOf;
    if a == [] {
      assert a + b == b;
    } else {
      assert (a + b)[1..] == a[1..] + b;
      SitesConcat(a[1..], b);
    }
  }

  lemma {:induction false} EditItemsGood(items: seq<Item>, hosts: seq<string>)
    requires GoodItems(items) && forall b :: b in SitesOf(items) ==> Rewritable(b, hosts)
    ensures GoodItems(EditItems(items, hosts)) && SitesOf(EditItems(items, hosts)) == EditBlocks(SitesOf(items), hosts)
  {
    hide GoodItem, EditItem, EditBlock, Rewritable, BlockOf;
    if items != [] {
      var it := items[0];
      assert it in items && forall x :: x in items[1..] ==> x in items;
      EditItemsGood(items[1..], hosts);
      if it.Site? {
        SiteHasLines(it);
        assert BlockOf(it.lines) in BlocksOf(it);
      }
      EditItemGood(it, hosts);
      SitesConcat(EditItem(it, hosts), EditItems(items[1..], hosts));
      EditBlocksOf(it, hosts, SitesOf(items[1..]));
      NotSite(it);
    }
  }

  lemma NotSite(it: Item)
    requires GoodItem(it)
    ensures BlocksOf(it) == if it.Site? then [BlockOf(it.lines)] else []
  {
    hide BlockOf, ReadTopLine, CodeLine;
  }

  lemma EditBlocksOf(it: Item, hosts: seq<string>, rest: seq<SiteBlock>)
    ensures EditBlocks(BlocksOf(it) + rest, hosts) ==
      (if it.Site? && it.lines != [] then EditBlock(BlockOf(it.lines), hosts) else []) + EditBlocks(rest, hosts)
  {
    hide EditBlock, BlockOf, EditOf, ReadTopLine;
    if it.Site? && it.lines != [] {
      assert (BlocksOf(it) + rest)[1..] == rest;
    } else {
      assert BlocksOf(it) + rest == rest;
    }
  }

  // ---- what adopting returns ----

  lemma {:induction false} SitesReadable(items: seq<Item>)
    requires GoodItems(items)
    ensures Readable(SitesOf(items))
  {
    hide GoodItem, CodeLine;
    if items != [] {
      var it := items[0];
      assert it in items && forall x :: x in items[1..] ==> x in items;
      SitesReadable(items[1..]);
      SiteReadable(it);
    }
  }

  lemma SiteReadable(it: Item)
    requires GoodItem(it)
    ensures Readable(BlocksOf(it))
  {
    hide CodeLine, ReadTopLine, HeredocTerminator, FreeLine;
    if it.Site? {
      assert it.lines[0] in it.lines;
      CleanReads(it.lines[0]);
    }
  }

  /** The text adopting returns when some block is edited. */
  lemma AdoptReturns(items: seq<Item>, hosts: seq<string>)
    requires Adoptable(items, hosts)
    ensures AdoptForeign(FileOf(items), hosts) ==
      if forall b :: b in SitesOf(items) ==> EditOf(b, hosts).Keep? then Ok(FileOf(items))
      else Ok(Collapse(FileOf(EditItems(items, hosts))))
  {
    hide EditOf, GoodItem, ParseFrom, View, LinesOf, ApplyFrom, Unlines, Collapse, Whole, Physical, Pieces, NoCode,
      Rewritable, OtherLines, KeysOf;
    ForeignOfFile(items);
    var bs := SitesOf(items);
    SitesReadable(items);
    EditsHold(bs, hosts);
    ApplyItems(items, hosts, bs, EditsFor(bs, hosts).value);
    FileLines(items);
    PiecesAreGood(items);
    PhysicalMerges(Pieces(items));
    EditItemsGood(items, hosts);
    RejoinWhole(EditItems(items, hosts));
  }

  lemma RejoinWhole(items: seq<Item>)
    requires GoodItems(items)
    ensures Unlines(Whole(Pieces(items))) == FileOf(items)
  {
    hide GoodItem, LogicalFrom;
    PiecesAreGood(items);
    PhysicalMerges(Pieces(items));
    LogicalFromRejoins(Physical(Pieces(items)), false, []);
    assert [] + Physical(Pieces(items)) == Physical(Pieces(items));
  }

  // ---- reading the result back ----

  lemma CollapsedIsSqueezed(ls: seq<string>)
    requires ls != []
    ensures CollapsedLines(ls) == SqueezeLines(ls, 0) || CollapsedLines(ls) == SqueezeLines(ls, 0) + [""]
  {
    var front, last := Front(ls), Last(ls);
    assert ls == front + [last];
    SqueezeLinesConcat(front, [last], 0);
    assert [last][1..] == [];
  }

  lemma {:induction false} NonEmptyMembers(ls: seq<string>)
    ensures forall l :: l in NonEmpty(ls) <==> l in ls && l != ""
  {
    if ls != [] {
      NonEmptyMembers(ls[..|ls| - 1]);
      assert ls == ls[..|ls| - 1] + [ls[|ls| - 1]];
    }
  }

  lemma EmptyIsCalm()
    ensures Calm("")
  {
    EmptyIsSkipped();
  }

  lemma {:induction false} CalmFrees(ls: seq<string>)
    requires AllClean(ls)
    ensures forall l :: l in Viewed(Frees(ls)) ==> Calm(l)
  {
    hide FreeLine, Coded, HeredocTerminator, Calm, Viewed;
    ViewedFrees(ls);
    forall l | l in ls ensures Calm(l) {
      assert Clean(l);
    }
  }

  lemma CalmItem(it: Item)
    requires GoodItem(it)
    ensures forall l :: l in Viewed(PiecesOf(it)) ==> Calm(l)
  {
    hide FreeLine, HeredocTerminator, ReadTopLine, MarkOf, OddBackticks, Closes, LogicalLines, CodeLine, TrimSpace,
      MarkerPrefixed, OpenAfter;
    match it {
      case Managed(r) =>
        OnePiece(r);
        MarkerIsComment(r.begin);
        MarkerIsComment(r.end);
        EmptyIsCalm();
        forall l | l in ViewedOf(r) ensures Calm(l) {
          assert l == r.begin || l == r.end || l == "";
        }
      case Loose(l) => OnePiece(Free(l));
      case Options(ls) => CalmFrees(ls);
      case Site(ls) => CalmFrees(ls);
    }
  }

  lemma {:induction false} CalmItems(items: seq<Item>)
    requires GoodItems(items)
    ensures forall l :: l in Viewed(Pieces(items)) ==> Calm(l)
  {
    hide GoodItem, PiecesOf, Viewed, Calm;
    if items == [] {
      NothingIsViewed();
    } else {
      assert items[0] in items && forall x :: x in items[1..] ==> x in items;
      CalmItem(items[0]);
      CalmItems(items[1..]);
      ViewedConcat(PiecesOf(items[0]), Pieces(items[1..]));
    }
  }

  lemma SameSaidParses(a: seq<string>, items: seq<Item>)
    requires GoodItems(items) && NonEmpty(a) == NonEmpty(Viewed(Pieces(items)))
    ensures SpokenResult(ParseFrom(a, 0, None)) == Ok(SpokenAll(SitesOf(items)))
  {
    hide GoodItem, Viewed, Calm, ParseFrom, NonEmpty;
    var b := Viewed(Pieces(items));
    CalmItems(items);
    NonEmptyMembers(a);
    NonEmptyMembers(b);
    EmptyIsCalm();
    forall l | l in a ensures Calm(l) {
      assert l == "" || l in NonEmpty(b);
    }
    ParsesSame(a, b);
    ParseItems(items);
  }

  lemma CollapsedFile(items: seq<Item>)
    requires GoodItems(items)
    ensures var ps := Pieces(items);
      exists tail ::
        (tail == [] || tail == [""]) && LinesOf(Collapse(FileOf(items))) == SqueezeLines(Physical(ps), 0) + tail
  {
    hide GoodItem, Collapse, LinesOf;
    var ps := Pieces(items);
    if items == [] {
      assert Collapse("") == "" by { NothingCollapses(); }
      SplitEmpty();
      assert FileOf(items) == "" && SqueezeLines(Physical(ps), 0) + [""] == [""];
    } else {
      FileLines(items);
      CollapsedText(Physical(ps));
      CollapsedIsSqueezed(Physical(ps));
      assert SqueezeLines(Physical(ps), 0) + [] == SqueezeLines(Physical(ps), 0);
    }
  }

  lemma NothingCollapses()
    ensures Collapse("") == ""
  {
  }

  /** The foreign blocks of the collapsed file say what its items say. */
  lemma ForeignOfCollapsed(items: seq<Item>)
    requires GoodItems(items)
    ensures SpokenResult(ForeignSites(Collapse(FileOf(items)))) == Ok(SpokenAll(SitesOf(items)))
  {
    hide GoodItem, Collapse, LinesOf, View, ParseFrom, Viewed, NonEmpty, SqueezeLines, SpokenResult, FileOf;
    var ps, text := Pieces(items), Collapse(FileOf(items));
    PiecesAreGood(items);
    CollapsedFile(items);
    var tail :| (tail == [] || tail == [""]) && LinesOf(text) == SqueezeLines(Physical(ps), 0) + tail;
    LinesOfText(text);
    ForeignOfLines(LinesOf(text));
    SqueezedViews(ps, 0, tail);
    SameSaidParses(LogicalLines(View(LinesOf(text), false)), items);
  }

  lemma {:induction false} NothingEdited(bs: seq<SiteBlock>, hosts: seq<string>)
    requires forall b :: b in bs ==> EditOf(b, hosts).Keep?
    ensures EditBlocks(bs, hosts) == bs
  {
    hide EditOf;
    if bs != [] {
      assert bs[0] in bs && forall b :: b in bs[1..] ==> b in bs;
      NothingEdited(bs[1..], hosts);
      assert bs == [bs[0]] + bs[1..];
    }
  }

  /** Adoption is exact: it succeeds, and reading its result back yields every
      foreign block in order, without the requested hosts and with every line
      that is not empty; a block that shares no host is untouched. */
  lemma AdoptionIsExact(items: seq<Item>, hosts: seq<string>)
    requires Adoptable(items, hosts)
    ensures ForeignSites(FileOf(items)) == Ok(SitesOf(items))
    ensures AdoptForeign(FileOf(items), hosts).Ok?
    ensures SpokenResult(ForeignSites(AdoptForeign(FileOf(items), hosts).value)) ==
      Ok(SpokenAll(EditBlocks(SitesOf(items), hosts)))
  {
    hide GoodItem, EditOf, Collapse, UniqueAddressLines, SpokenAll, ForeignSites, AdoptForeign, FileOf, Rewritable;
    ForeignOfFile(items);
    AdoptReturns(items, hosts);
    if forall b :: b in SitesOf(items) ==> EditOf(b, hosts).Keep? {
      NothingEdited(SitesOf(items), hosts);
    } else {
      EditItemsGood(items, hosts);
      ForeignOfCollapsed(EditItems(items, hosts));
    }
  }

  // ---- who serves which host ----

  predicate Serves(b: SiteBlock, host: string) { host in AddressHosts(b.addresses) }

  lemma ServesByAddress(b: SiteBlock, host: string)
    ensures Serves(b, host) <==> exists a :: a in b.addresses && AddressHost(a) == host
  {
    var ah := AddressHosts(b.addresses);
    if host in ah {
      var i :| 0 <= i < |ah| && ah[i] == host;
      assert b.addresses[i] in b.addresses;
    }
    if a :| a in b.addresses && AddressHost(a) == host {
      var i :| 0 <= i < |b.addresses| && b.addresses[i] == a;
      assert ah[i] == host;
    }
  }

  /** One block: what is left of it serves exactly its other hosts. */
  lemma EditedBlockServes(b: SiteBlock, hosts: seq<string>, host: string)
    requires b.lines != []
    ensures (exists c :: c in EditBlock(b, hosts) && Serves(c, host)) <==> Serves(b, host) && host !in hosts
    ensures forall c :: c in EditBlock(b, hosts) ==> c.lines != [] && c.lines[1..] == b.lines[1..]
  {
    hide AddressHost, KeptAddresses, AddressHosts, LeadingWhitespace, JoinAddresses;
    KeptAreAddresses(b.addresses, hosts);
    forall c: SiteBlock ensures Serves(c, host) <==> exists a :: a in c.addresses && AddressHost(a) == host {
      ServesByAddress(c, host);
    }
    WithinByAddress(b, hosts);
    match EditOf(b, hosts) {
      case Keep =>
        assert b in EditBlock(b, hosts);
      case Drop =>
      case Rewrite(line) =>
        var c := SiteBlock(KeptAddresses(b.addresses, hosts), [line] + b.lines[1..]);
        assert c in EditBlock(b, hosts) && c.lines[1..] == b.lines[1..];
    }
  }

  lemma WithinByAddress(b: SiteBlock, hosts: seq<string>)
    ensures HostsWithin(AddressHosts(b.addresses), hosts) <==>
      b.addresses != [] && KeptAddresses(b.addresses, hosts) == []
    ensures |KeptAddresses(b.addresses, hosts)| == |b.addresses| ==> forall a :: a in b.addresses ==>
      AddressHost(a) !in hosts
  {
    hide AddressHost;
    var ah, kept := AddressHosts(b.addresses), KeptAddresses(b.addresses, hosts);
    KeptAreAddresses(b.addresses, hosts);
    if kept == [] {
      forall a | a in ah ensures a in hosts {
        var i :| 0 <= i < |ah| && ah[i] == a;
        assert b.addresses[i] in b.addresses;
      }
    } else if b.addresses != [] {
      assert kept[0] in kept && kept[0] in b.addresses;
      var i :| 0 <= i < |b.addresses| && b.addresses[i] == kept[0];
      assert ah[i] in ah && ah[i] !in hosts;
    }
  }

  lemma {:induction false} EditBlocksMembers(bs: seq<SiteBlock>, hosts: seq<string>)
    ensures forall c :: c in EditBlocks(bs, hosts) <==> exists b :: b in bs && c in EditBlock(b, hosts)
  {
    hide EditBlock;
    if bs != [] {
      EditBlocksMembers(bs[1..], hosts);
      assert bs == [bs[0]] + bs[1..];
    }
  }

  /** c serves the host with b's body. */
  predicate StandsIn(c: SiteBlock, b: SiteBlock, host: string) {
    Serves(c, host) && Serves(b, host) && c.lines != [] && b.lines != [] && c.lines[1..] == b.lines[1..]
  }

  /** Afterwards no foreign block serves a requested host, and every other host
      is served by a block with the same body as before, and by no other. */
  lemma AdoptedHosts(bs: seq<SiteBlock>, hosts: seq<string>, host: string)
    requires forall b :: b in bs ==> b.lines != []
    ensures host in hosts ==> forall c :: c in EditBlocks(bs, hosts) ==> !Serves(c, host)
    ensures host !in hosts ==> forall b :: b in bs && Serves(b, host) ==>
      exists c :: c in EditBlocks(bs, hosts) && StandsIn(c, b, host)
    ensures forall c :: c in EditBlocks(bs, hosts) && Serves(c, host) ==> exists b :: b in bs && StandsIn(c, b, host)
  {
    hide Serves, EditBlock, EditBlocks;
    EditBlocksMembers(bs, hosts);
    forall b | b in bs && Serves(b, host) && host !in hosts
      ensures exists c :: c in EditBlocks(bs, hosts) && StandsIn(c, b, host)
    {
      EditedBlockServes(b, hosts, host);
      var c :| c in EditBlock(b, hosts) && Serves(c, host);
      assert StandsIn(c, b, host) && c in EditBlocks(bs, hosts);
    }
    forall c | c in EditBlocks(bs, hosts) && Serves(c, host)
      ensures host !in hosts && exists b :: b in bs && StandsIn(c, b, host)
    {
      var b :| b in bs && c in EditBlock(b, hosts);
      EditedBlockServes(b, hosts, host);
      assert StandsIn(c, b, host);
    }
  }

  // ---- managed regions are spared ----

  /** The regions among the pieces, if no app has two. */
  function RegionMap(ps: seq<Piece>, regions: map<string, seq<string>>): Option<map<string, seq<string>>> {
    if ps == [] then Some(regions)
    else if ps[0].Free? then RegionMap(ps[1..], regions)
    else if ps[0].app in regions then None
    else RegionMap(ps[1..], regions[ps[0].app := ps[0].body])
  }

  lemma PlainLines(ls: seq<string>)
    requires NoPrefixes(ls)
    ensures forall l :: l in ls ==> MarkOf(l) == Plain
  {
    hide MarkerPrefixed, MarkOf;
    forall l | l in ls ensures MarkOf(l) == Plain {
      MarkPrefixed(l);
    }
  }

  lemma ScanPiece(st: Scan, p: Piece)
    requires GoodPiece(p) && st.Scan? && st.inside == None
    ensures p.Free? ==> ScanLines(st, PhysicalOf(p)) == st.(outside := st.outside + LinesOf(p.line))
    ensures p.Region? && p.app in st.regions ==> ScanLines(st, PhysicalOf(p)) == Malformed
    ensures p.Region? && p.app !in st.regions ==>
      ScanLines(st, PhysicalOf(p)) == Scan(None, [], st.regions[p.app := p.body], st.outside)
  {
    hide MarkOf, OddBackticks, MarkerPrefixed, OpenAfter, LinesOf;
    if p.Free? {
      PlainLines(LinesOf(p.line));
      ScanPlain(st, LinesOf(p.line));
    } else {
      PlainLines(p.body);
      ScanConcat(st, [p.begin], p.body + [p.end]);
      ScanOne(st, p.begin);
      assert PhysicalOf(p) == [p.begin] + (p.body + [p.end]);
      var entered := ScanStep(st, p.begin);
      if entered.Malformed? {
        MalformedStays(p.body + [p.end]);
      } else {
        ScanConcat(entered, p.body, [p.end]);
        ScanPlain(entered, p.body);
        ScanOne(ScanLines(entered, p.body), p.end);
        assert [] + p.body == p.body;
      }
    }
  }

  lemma {:induction false} ScanPieces(st: Scan, ps: seq<Piece>)
    requires GoodPieces(ps) && st.Scan? && st.inside == None
    ensures var st2, regions := ScanLines(st, Physical(ps)), RegionMap(ps, st.regions);
      if regions.None? then st2 == Malformed else st2.Scan? && st2.inside == None && st2.regions == regions.value
    decreases |ps|
  {
    hide GoodPiece, PhysicalOf, MarkOf;
    if ps != [] {
      var p, rest := ps[0], ps[1..];
      assert p in ps && forall x :: x in rest ==> x in ps;
      ScanPiece(st, p);
      ScanConcat(st, PhysicalOf(p), Physical(rest));
      var st2 := ScanLines(st, PhysicalOf(p));
      if st2.Malformed? {
        MalformedStays(Physical(rest));
      } else {
        ScanPieces(st2, rest);
      }
    }
  }

  lemma {:induction false} RegionMapConcat(a: seq<Piece>, b: seq<Piece>, regions: map<string, seq<string>>)
    ensures RegionMap(a + b, regions) == var r := RegionMap(a, regions); if r.None? then None else RegionMap(b, r.value)
  {
    if a == [] {
      assert a + b == b;
    } else {
      assert (a + b)[1..] == a[1..] + b;
      RegionMapConcat(a[1..], b, regions);
      RegionMapConcat(a[1..], b, if a[0].Region? then regions[a[0].app := a[0].body] else regions);
    }
  }

  lemma {:induction false} FreesHaveNoRegion(ls: seq<string>, regions: map<string, seq<string>>)
    ensures RegionMap(Frees(ls), regions) == Some(regions)
  {
    if ls != [] {
      FreesHaveNoRegion(ls[1..], regions);
      assert Frees(ls)[1..] == Frees(ls[1..]);
    }
  }

  lemma EditItemRegions(it: Item, hosts: seq<string>, regions: map<string, seq<string>>)
    ensures RegionMap(Pieces(EditItem(it, hosts)), regions) == RegionMap(PiecesOf(it), regions)
  {
    hide EditOf, BlockOf;
    OneItem(it);
    if it.Site? && it.lines != [] {
      FreesHaveNoRegion(it.lines, regions);
      match EditOf(BlockOf(it.lines), hosts) {
        case Keep =>
        case Drop =>
        case Rewrite(line) =>
          OneItem(Site([line] + it.lines[1..]));
          FreesHaveNoRegion([line] + it.lines[1..], regions);
      }
    }
  }

  lemma {:induction false} EditItemsRegions(items: seq<Item>, hosts: seq<string>, regions: map<string, seq<string>>)
    ensures RegionMap(Pieces(EditItems(items, hosts)), regions) == RegionMap(Pieces(items), regions)
  {
    hide EditItem, PiecesOf;
    if items != [] {
      var it, rest := items[0], items[1..];
      EditItemRegions(it, hosts, regions);
      PiecesConcat(EditItem(it, hosts), EditItems(rest, hosts));
      RegionMapConcat(Pieces(EditItem(it, hosts)), Pieces(EditItems(rest, hosts)), regions);
      RegionMapConcat(PiecesOf(it), Pieces(rest), regions);
      var r := RegionMap(PiecesOf(it), regions);
      if r.Some? {
        EditItemsRegions(rest, hosts, r.value);
      }
    }
  }

  /** What a step must do to the regions: keep every one, at most squeezed. */
  ghost predicate SparesRegions(before: seq<string>, after: seq<string>) {
    WellFormed(before) ==>
      WellFormed(after) && (RegionsOf(after) == RegionsOf(before) || RegionsOf(after) == Tidy(RegionsOf(before)))
  }

  /** Adopting foreign blocks leaves every managed region, but for runs of empty
      lines. */
  lemma AdoptionSparesRegions(items: seq<Item>, hosts: seq<string>)
    requires Adoptable(items, hosts) && AdoptForeign(FileOf(items), hosts).Ok?
    ensures SparesRegions(LinesOf(FileOf(items)), LinesOf(AdoptForeign(FileOf(items), hosts).value))
  {
    hide GoodItem, EditOf, Collapse, UniqueAddressLines, AdoptForeign, FileOf, Rewritable, LinesOf, Physical, Tidy,
      CollapsedLines;
    AdoptReturns(items, hosts);
    if exists b :: b in SitesOf(items) && !EditOf(b, hosts).Keep? {
      var after := EditItems(items, hosts);
      EditItemsGood(items, hosts);
      PiecesAreGood(items);
      PiecesAreGood(after);
      FileLines(items);
      ScanPieces(START, Pieces(items));
      ScanPieces(START, Pieces(after));
      EditItemsRegions(items, hosts, map[]);
      CollapsedRegions(after);
    }
  }

  lemma CollapsedRegions(items: seq<Item>)
    requires GoodItems(items)
    ensures var before, after := Physical(Pieces(items)), LinesOf(Collapse(FileOf(items)));
      WellFormed(before) ==> WellFormed(after) && RegionsOf(after) == Tidy(RegionsOf(before))
  {
    hide GoodItem, Collapse, LinesOf, CollapsedLines, MarkOf;
    if items == [] {
      NothingCollapses();
      SplitEmpty();
      SnocEmptyKeeps([]);
      assert [] + [""] == [""] && FileOf(items) == "";
    } else if WellFormed(Physical(Pieces(items))) {
      FileLines(items);
      CollapsedText(Physical(Pieces(items)));
      CollapseKeeps(Physical(Pieces(items)));
    }
  }
}
