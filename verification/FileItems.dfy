/** Caddyfiles made of managed regions and top-level blocks, and how removing,
    collapsing and writing a region act on them (internal/caddy/caddy.go). */
module FileItems {
  import opened Wrappers
  import opened Text
  import opened TextLines
  import opened Regions
  import opened RegionLaws
  import opened RegionEdit
  import opened RouteLex
  import opened Routes
  import opened RouteAddress
  import opened RoutePieces
  import opened RouteItems
  import opened Adoption
  import opened AdoptionExact

  // ---- files ----

  /** The body of a region: literals closed within it and free of runs of empty
      lines, quotes closed on every line, and no line that looks like a marker. */
  predicate TightBody(body: seq<string>) {
    && !OpenAfter(body, false) && NoPrefixes(body) && (forall l :: l in body ==> '\n' !in l)
    && forall l :: l in LogicalLines(body) ==> Coded(l) && FreeLine(l)
  }

  predicate Tight(it: Item) { GoodItem(it) && (it.Managed? ==> it.region.Region? && TightBody(it.region.body)) }

  predicate AllTight(items: seq<Item>) { forall it :: it in items ==> Tight(it) }

  /** The items of a file, by its lines: never none. */
  ghost predicate AreFile(ls: seq<string>, items: seq<Item>) {
    items != [] && AllTight(items) && ls == Physical(Pieces(items))
  }

  ghost predicate IsFile(text: string, items: seq<Item>) { AreFile(LinesOf(text), items) }

  lemma TightIsGood(items: seq<Item>)
    requires AllTight(items)
    ensures GoodItems(items)
  {
    forall it | it in items ensures GoodItem(it) {
      assert Tight(it);
    }
  }

  lemma TextOfFile(text: string, items: seq<Item>)
    requires IsFile(text, items)
    ensures text == FileOf(items)
  {
    LinesOfText(text);
  }

  lemma EmptyLineIsTight()
    ensures Tight(Loose("")) && Physical(Pieces([Loose("")])) == [""] && Opens(Whole(Pieces([Loose("")]))) == multiset{}
    ensures SitesOf([Loose("")]) == []
  {
    OneLineIsFree("") by {
      assert TrimSpace("") == "";
    }
    EmptyIsSkipped();
    EmptyIsCalm();
    OneItem(Loose(""));
    WholeItem(Loose(""));
    assert Physical([Free("")]) == LinesOf("") == [""] by {
      assert [Free("")][1..] == [];
      SplitEmpty();
    }
    assert [Loose("")][1..] == [];
    OpensOne("");
  }

  // ---- the addresses that lines open ----

  function Opened(l: string): seq<string> {
    var top := ReadTopLine(l, Code(l));
    if top.Opening? then top.block.addresses else []
  }

  /** Every address opened by any of the lines, with repetitions. */
  function Opens(ls: seq<string>): multiset<string> {
    if ls == [] then multiset{} else multiset(Opened(ls[0])) + Opens(ls[1..])
  }

  lemma {:induction false} OpensConcat(a: seq<string>, b: seq<string>)
    ensures Opens(a + b) == Opens(a) + Opens(b)
  {
    hide Opened;
    if a == [] {
      assert a + b == b;
    } else {
      assert (a + b)[1..] == a[1..] + b;
      OpensConcat(a[1..], b);
    }
  }

  lemma OpensOne(l: string)
    ensures Opens([l]) == multiset(Opened(l)) && (l == "" ==> Opened(l) == [])
  {
    assert [l][1..] == [];
    EmptyIsSkipped();
  }

  lemma {:induction false} OpensMember(ls: seq<string>, l: string, a: string)
    requires l in ls && a in Opened(l)
    ensures Opens(ls)[a] >= 1
  {
    hide Opened;
    if ls[0] != l {
      assert l in ls[1..];
      OpensMember(ls[1..], l, a);
    } else {
      assert a in multiset(Opened(l));
    }
  }

  lemma {:induction false} OpensSqueezed(ls: seq<string>, n: nat)
    ensures Opens(SqueezeLines(ls, n)) == Opens(ls)
  {
    hide Opened;
    if ls != [] {
      OpensOne(ls[0]);
      OpensSqueezed(ls[1..], n);
      OpensSqueezed(ls[1..], n + 1);
      OpensSqueezed(ls[1..], 1);
    }
  }

  function ItemOpens(it: Item): multiset<string> { Opens(LinesOfItem(it)) }

  /** What a file's lines open, item by item. */
  function FileOpens(items: seq<Item>): multiset<string> {
    if items == [] then multiset{} else ItemOpens(items[0]) + FileOpens(items[1..])
  }

  lemma {:induction false} FileOpensConcat(a: seq<Item>, b: seq<Item>)
    ensures FileOpens(a + b) == FileOpens(a) + FileOpens(b)
  {
    hide ItemOpens;
    if a == [] {
      assert a + b == b;
    } else {
      assert (a + b)[1..] == a[1..] + b;
      FileOpensConcat(a[1..], b);
    }
  }

  /** They are what its logical lines open. */
  lemma {:induction false} FileOpensAre(items: seq<Item>)
    requires GoodItems(items)
    ensures FileOpens(items) == Opens(Whole(Pieces(items)))
  {
    hide GoodItem, LinesOfItem, Opens, PiecesOf, Whole;
    if items == [] {
      NothingIsWhole();
      assert Opens([]) == multiset{} by { NothingOpens(); }
    } else {
      assert items[0] in items && forall x :: x in items[1..] ==> x in items;
      FileOpensAre(items[1..]);
      ViewedConcat(PiecesOf(items[0]), Pieces(items[1..]));
      WholeItem(items[0]);
      OpensConcat(LinesOfItem(items[0]), Whole(Pieces(items[1..])));
    }
  }

  lemma NothingOpens()
    ensures Opens([]) == multiset{}
  {
  }

  // ---- files that keep less ----

  /** A block that can be put on a shorter address line. */
  predicate Plainly(b: SiteBlock) { BraceNet(KeyOf(b)) == 1 && forall a :: a in b.addresses ==> PlainAddress(a) }

  predicate LeftOf(c: SiteBlock, b: SiteBlock) {
    (forall a :: a in c.addresses ==> a in b.addresses) && (Plainly(b) ==> Plainly(c))
  }

  /** Every block is what is left of one there was. */
  ghost predicate Shrunk(after: seq<SiteBlock>, before: seq<SiteBlock>) {
    forall c :: c in after ==> exists b :: b in before && LeftOf(c, b)
  }

  ghost predicate Below(after: seq<Item>, before: seq<Item>) {
    FileOpens(after) <= FileOpens(before) && Shrunk(SitesOf(after), SitesOf(before))
  }

  lemma ShrunkTrans(c: seq<SiteBlock>, b: seq<SiteBlock>, a: seq<SiteBlock>)
    requires Shrunk(c, b) && Shrunk(b, a)
    ensures Shrunk(c, a)
  {
    hide Plainly;
    forall x | x in c ensures exists z :: z in a && LeftOf(x, z) {
      var y :| y in b && LeftOf(x, y);
      var z :| z in a && LeftOf(y, z);
      assert LeftOf(x, z);
    }
  }

  lemma BelowTrans(c: seq<Item>, b: seq<Item>, a: seq<Item>)
    requires Below(c, b) && Below(b, a)
    ensures Below(c, a)
  {
    hide Shrunk;
    ShrunkTrans(SitesOf(c), SitesOf(b), SitesOf(a));
  }

  lemma BelowSelf(items: seq<Item>)
    ensures Below(items, items)
  {
    ShrunkSelf(SitesOf(items));
  }

  lemma ShrunkSelf(bs: seq<SiteBlock>)
    ensures Shrunk(bs, bs)
  {
    hide Plainly;
    forall b | b in bs ensures exists c :: c in bs && LeftOf(b, c) {
      assert LeftOf(b, b);
    }
  }

  lemma BelowConcat(c: seq<Item>, d: seq<Item>, a: seq<Item>, b: seq<Item>)
    requires Below(c, a) && Below(d, b)
    ensures Below(c + d, a + b)
  {
    hide LeftOf, ItemOpens, BlocksOf;
    FileOpensConcat(a, b);
    FileOpensConcat(c, d);
    SitesConcat(a, b);
    SitesConcat(c, d);
    forall x | x in SitesOf(c + d) ensures exists y :: y in SitesOf(a + b) && LeftOf(x, y) {
      if x in SitesOf(c) {
        var y :| y in SitesOf(a) && LeftOf(x, y);
      } else {
        var y :| y in SitesOf(b) && LeftOf(x, y);
      }
    }
  }

  /** Nothing is below everything. */
  lemma NothingBelow(items: seq<Item>)
    ensures Below([], items)
  {
  }

  // ---- files that say the same ----

  /** A block but for blank lines and the white space around its lines. */
  function Told(b: SiteBlock): SiteBlock {
    SiteBlock(b.addresses, if b.lines == [] then [] else [TrimSpace(b.lines[0])] + Said(b.lines[1..]))
  }

  function ToldAll(bs: seq<SiteBlock>): seq<SiteBlock> {
    if bs == [] then [] else [Told(bs[0])] + ToldAll(bs[1..])
  }

  /** No more is opened, and the foreign sites are the same, in order. */
  ghost predicate SameSites(after: seq<Item>, before: seq<Item>) {
    Below(after, before) && ToldAll(SitesOf(after)) == ToldAll(SitesOf(before))
  }

  lemma SaidSqueezed(ls: seq<string>, n: nat)
    ensures Said(SqueezeLines(ls, n)) == Said(ls)
  {
    hide Said, NonEmpty, SqueezeLines;
    SqueezeKeepsNonEmpty(ls, n);
    SaidOfNonEmpty(ls);
    SaidOfNonEmpty(SqueezeLines(ls, n));
  }

  lemma {:induction false} ToldConcat(a: seq<SiteBlock>, b: seq<SiteBlock>)
    ensures ToldAll(a + b) == ToldAll(a) + ToldAll(b)
  {
    hide Told;
    if a == [] {
      assert a + b == b;
    } else {
      assert (a + b)[1..] == a[1..] + b;
      ToldConcat(a[1..], b);
    }
  }

  lemma ToldOne(b: SiteBlock)
    ensures ToldAll([b]) == [Told(b)]
  {
    hide Told;
    assert [b][1..] == [];
  }

  lemma SameTrans(c: seq<Item>, b: seq<Item>, a: seq<Item>)
    requires SameSites(c, b) && SameSites(b, a)
    ensures SameSites(c, a)
  {
    hide Below, ToldAll, SitesOf;
    BelowTrans(c, b, a);
  }

  lemma SameSelf(items: seq<Item>)
    ensures SameSites(items, items)
  {
    hide Below, ToldAll, SitesOf;
    BelowSelf(items);
  }

  lemma SameConcat(c: seq<Item>, d: seq<Item>, a: seq<Item>, b: seq<Item>)
    requires SameSites(c, a) && SameSites(d, b)
    ensures SameSites(c + d, a + b)
  {
    hide Below, ToldAll, SitesOf;
    BelowConcat(c, d, a, b);
    SitesConcat(a, b);
    SitesConcat(c, d);
    ToldConcat(SitesOf(a), SitesOf(b));
    ToldConcat(SitesOf(c), SitesOf(d));
  }

  /** An item without sites may go. */
  lemma SiteLessGoes(it: Item)
    requires !it.Site?
    ensures SameSites([], [it])
  {
    hide Below, BlocksOf;
    NothingBelow([it]);
    SitesOfOne(it);
    assert BlocksOf(it) == [] by { NoBlocks(it); }
  }

  lemma NoBlocks(it: Item)
    requires !it.Site?
    ensures BlocksOf(it) == []
  {
  }

  /** Every address of a foreign site is opened by one line of the file: its own. */
  ghost predicate OwnAddresses(items: seq<Item>) {
    forall b, a :: b in SitesOf(items) && a in b.addresses ==> FileOpens(items)[a] == 1
  }

  lemma {:induction false} SiteOpens(items: seq<Item>, b: SiteBlock, a: string)
    requires b in SitesOf(items) && a in b.addresses
    ensures FileOpens(items)[a] >= 1
  {
    hide Opens;
    if b in BlocksOf(items[0]) {
      var ls := items[0].lines;
      assert b == BlockOf(ls) && a in Opened(ls[0]);
      OpensMember(ls, ls[0], a);
    } else {
      SiteOpens(items[1..], b, a);
    }
  }

  lemma OwnBelow(after: seq<Item>, before: seq<Item>)
    requires Below(after, before) && OwnAddresses(before)
    ensures OwnAddresses(after)
  {
    hide LeftOf, FileOpens, SitesOf;
    forall c, a | c in SitesOf(after) && a in c.addresses ensures FileOpens(after)[a] == 1 {
      var b :| b in SitesOf(before) && LeftOf(c, b);
      assert a in b.addresses by { LeftHas(c, b, a); }
      SiteOpens(after, c, a);
      assert FileOpens(after)[a] <= FileOpens(before)[a];
    }
  }

  lemma LeftHas(c: SiteBlock, b: SiteBlock, a: string)
    requires LeftOf(c, b) && a in c.addresses
    ensures a in b.addresses
  {
  }

  // ---- a body and its logical lines ----

  /** The lines of closed literals are the lines there were. */
  lemma {:induction false} LogicalPhysical(ls: seq<string>, open: bool, buf: seq<string>)
    requires open <==> buf != []
    requires forall l :: l in ls || l in buf ==> '\n' !in l
    ensures Physical(Frees(LogicalFrom(ls, open, buf))) == buf + ls
    decreases |ls|
  {
    hide OddBackticks, Unlines, LinesOf, Physical, Frees;
    if ls == [] {
      NothingFree();
      if buf != [] {
        LinesOfUnlines(buf);
        OneFreeLine(Unlines(buf));
      }
      assert buf + ls == buf;
    } else {
      var l, rest := ls[0], ls[1..];
      assert l in ls && forall x :: x in rest ==> x in ls;
      if open && !OddBackticks(l) {
        LogicalPhysical(rest, true, buf + [l]);
        assert buf + [l] + rest == buf + ls;
      } else if !open && OddBackticks(l) {
        LogicalPhysical(rest, true, [l]);
        assert [l] + rest == buf + ls;
      } else {
        var group := if open then buf + [l] else [l];
        LogicalPhysical(rest, false, []);
        LinesOfUnlines(group);
        UnlinesOne(l);
        FirstFree(Unlines(group), LogicalFrom(rest, false, []));
        assert group + ([] + rest) == buf + ls;
      }
    }
  }

  lemma OneFreeLine(l: string)
    ensures Physical(Frees([l])) == LinesOf(l)
  {
    FirstFree(l, []);
    assert [l] + [] == [l];
    assert LinesOf(l) + [] == LinesOf(l);
  }

  lemma FirstFree(l: string, rest: seq<string>)
    ensures Physical(Frees([l] + rest)) == LinesOf(l) + Physical(Frees(rest))
  {
    assert ([l] + rest)[1..] == rest;
    assert Frees([l] + rest) == [Free(l)] + Frees(rest);
    assert ([Free(l)] + Frees(rest))[1..] == Frees(rest);
  }

  predicate AllFree(ls: seq<string>) { forall l :: l in ls ==> FreeLine(l) }

  /** Collapsing the lines collapses the logical lines. */
  lemma {:induction false} SqueezeFrees(w: seq<string>, n: nat)
    requires AllFree(w)
    ensures SqueezeLines(Physical(Frees(w)), n) == Physical(Frees(SqueezeLines(w, n)))
    ensures NewlinesAfter(Physical(Frees(w)), n) == NewlinesAfter(w, n)
  {
    hide LinesOf, FreeLine, Physical, Frees;
    if w == [] {
      NothingFree();
    } else {
      var l, rest := w[0], w[1..];
      assert l in w && forall x :: x in rest ==> x in w;
      assert w == [l] + rest;
      FirstFree(l, rest);
      SqueezeFreeLine(l, n);
      SqueezeLinesConcat(LinesOf(l), Physical(Frees(rest)), n);
      if l == "" {
        SplitEmpty();
        SqueezeFrees(rest, if n >= 2 then n else n + 1);
        if n < 2 {
          FirstFree(l, SqueezeLines(rest, n + 1));
        }
        EmptyNewlines(n);
      } else {
        SqueezeFrees(rest, 1);
        FirstFree(l, SqueezeLines(rest, 1));
        FreeNewlines(l, n);
      }
    }
  }

  lemma NothingFree()
    ensures Physical(Frees([])) == [] && SqueezeLines([], 0) == []
  {
  }

  lemma EmptyNewlines(n: nat)
    ensures NewlinesAfter([""], n) == if n >= 2 then n else n + 1
  {
    assert [""][1..] == [];
  }

  lemma FreeNewlines(l: string, n: nat)
    requires FreeLine(l) && l != ""
    ensures NewlinesAfter(LinesOf(l), n) == 1
  {
    hide OddBackticks, MarkerPrefixed, LinesOf;
    FirstLineSpeaks(l);
    var ls := LinesOf(l);
    assert ls == Front(ls) + [Last(ls)];
    LastNewlines(Front(ls), Last(ls), n);
  }

  lemma LastNewlines(front: seq<string>, last: string, n: nat)
    requires last != ""
    ensures NewlinesAfter(front + [last], n) == 1
  {
    SqueezeLinesConcat(front, [last], n);
    assert [last][1..] == [];
  }

  lemma FreesMerge(w: seq<string>)
    requires AllFree(w)
    ensures LogicalLines(Physical(Frees(w))) == w && !OpenAfter(Physical(Frees(w)), false)
  {
    hide FreeLine, LogicalFrom;
    FreePieces(w);
    PhysicalMerges(Frees(w));
    ViewedFrees(w);
    FreesClose(w);
  }

  lemma {:induction false} FreePieces(w: seq<string>)
    requires AllFree(w)
    ensures GoodPieces(Frees(w))
  {
    hide FreeLine;
    if w != [] {
      assert w[0] in w && forall l :: l in w[1..] ==> l in w;
      FreePieces(w[1..]);
    }
  }

  lemma {:induction false} OpenConcat(a: seq<string>, b: seq<string>, open: bool)
    ensures OpenAfter(a + b, open) == OpenAfter(b, OpenAfter(a, open))
  {
    hide OddBackticks;
    if a == [] {
      assert a + b == b;
    } else {
      assert (a + b)[1..] == a[1..] + b;
      OpenConcat(a[1..], b, open != OddBackticks(a[0]));
    }
  }

  lemma {:induction false} MiddleStaysOpen(ls: seq<string>, open: bool)
    requires forall l :: l in ls ==> !OddBackticks(l)
    ensures OpenAfter(ls, open) == open
  {
    hide OddBackticks;
    if ls != [] {
      assert ls[0] in ls && forall l :: l in ls[1..] ==> l in ls;
      MiddleStaysOpen(ls[1..], open);
    }
  }

  lemma UnitCloses(l: string)
    requires Unit(l)
    ensures !OpenAfter(LinesOf(l), false)
  {
    hide OddBackticks, LinesOf;
    LinesOfText(l);
    var ls := LinesOf(l);
    if |ls| == 1 {
      UnlinesOne(ls[0]);
      assert ls == [ls[0]] && ls[1..] == [];
    } else {
      var mid := ls[1..|ls| - 1];
      assert ls == [ls[0]] + (mid + [Last(ls)]);
      OpenConcat([ls[0]], mid + [Last(ls)], false);
      OpenConcat(mid, [Last(ls)], true);
      MiddleStaysOpen(mid, true);
      assert [ls[0]][1..] == [] && [Last(ls)][1..] == [];
    }
  }

  lemma {:induction false} FreesClose(w: seq<string>)
    requires AllFree(w)
    ensures !OpenAfter(Physical(Frees(w)), false)
  {
    hide FreeLine, LinesOf, Physical, Frees;
    if w == [] {
      NothingFree();
    } else {
      assert w[0] in w && forall l :: l in w[1..] ==> l in w;
      assert w == [w[0]] + w[1..];
      FirstFree(w[0], w[1..]);
      FreeIsUnit(w[0]);
      UnitCloses(w[0]);
      FreesClose(w[1..]);
      OpenConcat(LinesOf(w[0]), Physical(Frees(w[1..])), false);
    }
  }

  lemma FreeIsUnit(l: string)
    requires FreeLine(l)
    ensures Unit(l) && NoPrefixes(LinesOf(l))
  {
  }

  /** A tight body collapsed is tight, and opens what it did. */
  lemma SqueezedBody(body: seq<string>, n: nat)
    requires TightBody(body)
    ensures TightBody(SqueezeLines(body, n)) && Opens(LogicalLines(SqueezeLines(body, n))) == Opens(LogicalLines(body))
  {
    hide FreeLine, Coded, MarkerPrefixed, LogicalFrom, OpenAfter, Opens;
    var w := LogicalLines(body);
    LogicalPhysical(body, false, []);
    assert [] + body == body;
    assert AllFree(w);
    SqueezeFrees(w, n);
    SqueezedMembers(w, n);
    SqueezedMembers(body, n);
    FreesMerge(SqueezeLines(w, n));
    OpensSqueezed(w, n);
  }

  // ---- collapsing a file ----

  lemma {:induction false} ClosesSqueezed(ls: seq<string>, d: int, n: nat)
    requires Closes(ls, d)
    ensures Closes(SqueezeLines(ls, n), d)
    decreases |ls|
  {
    hide BraceNet, CodeLine;
    if ls != [] {
      EmptyNet();
      if ls[0] == "" {
        ClosesSqueezed(ls[1..], d, n);
        ClosesSqueezed(ls[1..], d, n + 1);
      } else {
        ClosesSqueezed(ls[1..], d + Net(ls[0]), 1);
      }
    }
  }

  lemma EmptyNet()
    ensures Net("") == 0
  {
  }

  function SqueezeItem(it: Item, n: nat): seq<Item> {
    match it
    case Managed(r) => if r.Region? then [Managed(r.(body := SqueezeLines(r.body, 1)))] else [it]
    case Loose(l) => if l == "" && n >= 2 then [] else [it]
    case Options(ls) => [Options(SqueezeLines(ls, n))]
    case Site(ls) => [Site(SqueezeLines(ls, n))]
  }

  function SqueezeItems(items: seq<Item>, n: nat): seq<Item> {
    if items == [] then []
    else SqueezeItem(items[0], n) + SqueezeItems(items[1..], NewlinesAfter(Physical(PiecesOf(items[0])), n))
  }

  /** The first line of a block stays. */
  lemma SqueezedHead(ls: seq<string>, n: nat)
    requires ls != [] && ls[0] != ""
    ensures var s := SqueezeLines(ls, n); s != [] && s[0] == ls[0] && s[1..] == SqueezeLines(ls[1..], 1)
  {
  }

  lemma SqueezedClean(ls: seq<string>, n: nat)
    requires AllClean(ls)
    ensures AllClean(SqueezeLines(ls, n)) && AllFree(ls)
  {
    hide Clean, FreeLine;
    SqueezedMembers(ls, n);
    forall l | l in ls ensures FreeLine(l) {
      CleanReads(l);
    }
  }

  lemma SqueezedSite(ls: seq<string>, n: nat)
    requires GoodItem(Site(ls))
    ensures GoodItem(Site(SqueezeLines(ls, n))) &&
      Physical(Frees(SqueezeLines(ls, n))) == SqueezeLines(Physical(Frees(ls)), n)
    ensures SameSites([Site(SqueezeLines(ls, n))], [Site(ls)])
  {
    hide ReadTopLine, BraceNet, CodeLine, Clean, Opens, SqueezeLines, Closes, Shrunk, FreeLine, ToldAll, Said;
    var s := SqueezeLines(ls, n);
    OpeningSpeaks(ls[0]);
    SqueezedHead(ls, n);
    SqueezedClean(ls, n);
    ClosesSqueezed(ls[1..], Net(ls[0]), 1);
    SqueezeFrees(ls, n);
    OpensSqueezed(ls, n);
    OneItemOpens(Site(s));
    OneItemOpens(Site(ls));
    SitesOfOne(Site(s));
    SitesOfOne(Site(ls));
    SaidSqueezed(ls[1..], 1);
    SameHead(s, ls);
  }

  lemma OpeningSpeaks(l: string)
    requires ReadTopLine(l, Code(l)).Opening? || ReadTopLine(l, Code(l)).Opaque?
    ensures l != ""
  {
    EmptyIsSkipped();
  }

  lemma OneItemOpens(it: Item)
    ensures FileOpens([it]) == ItemOpens(it)
  {
    assert [it][1..] == [];
  }

  lemma SitesOfOne(it: Item)
    ensures SitesOf([it]) == BlocksOf(it)
  {
    assert [it][1..] == [];
    assert BlocksOf(it) + [] == BlocksOf(it);
  }

  /** Blocks on the same address line whose other lines say the same. */
  lemma SameHead(s: seq<string>, ls: seq<string>)
    requires s != [] && ls != [] && s[0] == ls[0] && Said(s[1..]) == Said(ls[1..])
    ensures Shrunk([BlockOf(s)], [BlockOf(ls)]) && ToldAll([BlockOf(s)]) == ToldAll([BlockOf(ls)])
  {
    hide ReadTopLine, CodeLine, BraceNet, PlainAddress, ToldAll, Said, Trim;
    assert LeftOf(BlockOf(s), BlockOf(ls));
    assert BlockOf(ls) in [BlockOf(ls)];
    ToldOne(BlockOf(s));
    ToldOne(BlockOf(ls));
  }

  lemma SqueezedOptions(ls: seq<string>, n: nat)
    requires GoodItem(Options(ls))
    ensures GoodItem(Options(SqueezeLines(ls, n))) &&
      Physical(Frees(SqueezeLines(ls, n))) == SqueezeLines(Physical(Frees(ls)), n)
    ensures SameSites([Options(SqueezeLines(ls, n))], [Options(ls)])
  {
    hide ReadTopLine, BraceNet, CodeLine, Clean, Opens, SqueezeLines, Closes, FreeLine, ToldAll;
    var s := SqueezeLines(ls, n);
    OpeningSpeaks(ls[0]);
    SqueezedHead(ls, n);
    SqueezedClean(ls, n);
    ClosesSqueezed(ls[1..], Net(ls[0]), 1);
    SqueezeFrees(ls, n);
    OpensSqueezed(ls, n);
    OneItemOpens(Options(s));
    OneItemOpens(Options(ls));
    SitesOfOne(Options(s));
    SitesOfOne(Options(ls));
  }

  /** A region's markers open nothing. */
  lemma RegionOpens(r: Piece)
    requires r.Region? && MarkOf(r.begin) != Plain && MarkOf(r.end) != Plain
    ensures ItemOpens(Managed(r)) == Opens(LogicalLines(r.body))
  {
    hide MarkOf, LogicalLines, Opens, ReadTopLine;
    MarkerIsComment(r.begin);
    MarkerIsComment(r.end);
    OpensConcat([r.begin] + LogicalLines(r.body), [r.end]);
    OpensConcat([r.begin], LogicalLines(r.body));
    OpensOne(r.begin);
    OpensOne(r.end);
  }

  lemma TightRegion(app: string, begin: string, body: seq<string>, end: string)
    requires MarkOf(begin) == Begin(app) && MarkOf(end) == End(app) && '\n' !in begin && '\n' !in end
    requires !OddBackticks(begin) && !OddBackticks(end) && TightBody(body)
    ensures Tight(Managed(Region(app, begin, body, end)))
  {
    hide MarkOf, OddBackticks, OpenAfter, LogicalLines, FreeLine, MarkerPrefixed, Coded;
  }

  lemma TightMarks(r: Piece)
    requires Tight(Managed(r))
    ensures r.Region? && MarkOf(r.begin) != Plain && MarkOf(r.end) != Plain
  {
    hide MarkOf, OddBackticks, OpenAfter, LogicalFrom, MarkerPrefixed, TightBody, Coded;
  }

  /** Regions whose bodies open the same. */
  lemma SameRegions(s: Piece, r: Piece)
    requires Tight(Managed(s)) && Tight(Managed(r)) && Opens(LogicalLines(s.body)) == Opens(LogicalLines(r.body))
    ensures SameSites([Managed(s)], [Managed(r)])
  {
    hide MarkOf, LogicalFrom, Opens, Tight, ToldAll, FileOpens, ItemOpens, SitesOf;
    TightMarks(s);
    TightMarks(r);
    RegionOpens(r);
    RegionOpens(s);
    OneItemOpens(Managed(r));
    OneItemOpens(Managed(s));
    SitesOfOne(Managed(s));
    SitesOfOne(Managed(r));
  }

  lemma SqueezedRegion(r: Piece, n: nat)
    requires Tight(Managed(r))
    ensures var s := r.(body := SqueezeLines(r.body, 1));
      && Tight(Managed(s)) && PhysicalOf(s) == SqueezeLines(PhysicalOf(r), n) && SameSites([Managed(s)], [Managed(r)])
  {
    hide MarkOf, OddBackticks, OpenAfter, LogicalFrom, FreeLine, Coded, Opens, MarkerPrefixed, TightBody, SameSites;
    var s := r.(body := SqueezeLines(r.body, 1));
    SqueezedBody(r.body, 1);
    TightRegion(s.app, s.begin, s.body, s.end);
    MarkSpeaks(r.begin);
    MarkSpeaks(r.end);
    SqueezeRegion(r, [], n);
    assert PhysicalOf(r) + [] == PhysicalOf(r);
    assert [s.begin] + s.body + [s.end] + SqueezeLines([], 1) == PhysicalOf(s);
    SameRegions(s, r);
  }

  lemma PhysicalOne(it: Item)
    ensures Pieces([it]) == PiecesOf(it)
    ensures it.Managed? ==> Physical(PiecesOf(it)) == PhysicalOf(it.region)
    ensures it.Loose? ==> Physical(PiecesOf(it)) == LinesOf(it.line)
  {
    OneItem(it);
    if it.Managed? {
      assert [it.region][1..] == [];
      assert PhysicalOf(it.region) + [] == PhysicalOf(it.region);
    } else if it.Loose? {
      assert [Free(it.line)][1..] == [];
      assert LinesOf(it.line) + [] == LinesOf(it.line);
    }
  }

  lemma SqueezedItem(it: Item, n: nat)
    requires Tight(it)
    ensures AllTight(SqueezeItem(it, n)) && SameSites(SqueezeItem(it, n), [it])
    ensures Physical(Pieces(SqueezeItem(it, n))) == SqueezeLines(Physical(PiecesOf(it)), n)
  {
    hide GoodItem, TightBody, Physical, PhysicalOf, SameSites, LinesOf, SqueezeLines, Frees, FreeLine;
    PhysicalOne(it);
    match it {
      case Managed(r) =>
        SqueezedRegion(r, n);
        PhysicalOne(Managed(r.(body := SqueezeLines(r.body, 1))));
      case Loose(l) =>
        LooseIsFree(l);
        SqueezeFreeLine(l, n);
        if l == "" {
          SplitEmpty();
          NothingHere();
          SiteLessGoes(it);
        }
        SameSelf([it]);
      case Options(ls) =>
        SqueezedOptions(ls, n);
        PhysicalOne(Options(SqueezeLines(ls, n)));
      case Site(ls) =>
        SqueezedSite(ls, n);
        PhysicalOne(Site(SqueezeLines(ls, n)));
    }
  }

  lemma NothingHere()
    ensures Physical(Pieces([])) == []
  {
  }

  lemma LooseIsFree(l: string)
    requires GoodItem(Loose(l))
    ensures FreeLine(l)
  {
    CleanReads(l);
  }

  lemma {:induction false} SqueezedFile(items: seq<Item>, n: nat)
    requires AllTight(items)
    ensures var s := SqueezeItems(items, n);
      AllTight(s) && Physical(Pieces(s)) == SqueezeLines(Physical(Pieces(items)), n) && SameSites(s, items)
  {
    hide Tight, Physical, SameSites, SqueezeLines, SqueezeItem, PiecesOf;
    if items == [] {
      NothingHere();
      assert SqueezeLines([], n) == [] by { SqueezeNothing(n); }
      SameSelf([]);
    } else {
      var it, rest := items[0], items[1..];
      assert it in items && forall x :: x in rest ==> x in items;
      var p := Physical(PiecesOf(it));
      SqueezedItem(it, n);
      SqueezedFile(rest, NewlinesAfter(p, n));
      ViewedConcat(PiecesOf(it), Pieces(rest));
      SqueezeLinesConcat(p, Physical(Pieces(rest)), n);
      var s, t := SqueezeItem(it, n), SqueezeItems(rest, NewlinesAfter(p, n));
      PiecesConcat(s, t);
      ViewedConcat(Pieces(s), Pieces(t));
      SameConcat(s, t, [it], rest);
      assert [it] + rest == items;
    }
  }

  lemma {:induction false} FilesHaveLines(items: seq<Item>)
    requires AllTight(items)
    ensures items == [] <==> Physical(Pieces(items)) == []
    ensures forall l :: l in Physical(Pieces(items)) ==> '\n' !in l
  {
    hide GoodItem, GoodPieces;
    TightIsGood(items);
    PiecesAreGood(items);
    PhysicalAreLines(Pieces(items));
  }

  lemma WithEmptyLine(items: seq<Item>)
    requires AllTight(items)
    ensures AllTight(items + [Loose("")]) && Physical(Pieces(items + [Loose("")])) == Physical(Pieces(items)) + [""]
    ensures FileOpens(items + [Loose("")]) == FileOpens(items) && SitesOf(items + [Loose("")]) == SitesOf(items)
  {
    hide Tight, Physical, FileOpens, SitesOf, PiecesOf;
    EmptyLineIsTight();
    PiecesConcat(items, [Loose("")]);
    ViewedConcat(Pieces(items), Pieces([Loose("")]));
    FileOpensConcat(items, [Loose("")]);
    EmptyOpens();
    SitesConcat(items, [Loose("")]);
    assert SitesOf(items) + [] == SitesOf(items);
    assert FileOpens(items) + multiset{} == FileOpens(items);
  }

  lemma EmptyOpens()
    ensures FileOpens([Loose("")]) == multiset{}
  {
    OneItemOpens(Loose(""));
    OpensOne("");
  }

  lemma CollapsedFileItems(ls: seq<string>, items: seq<Item>) returns (after: seq<Item>)
    requires ls != [] && AreFile(ls, items)
    ensures AreFile(CollapsedLines(ls), after) && SameSites(after, items)
  {
    hide Tight, Physical, FileOpens, SitesOf, SqueezeItems, SqueezeLines, CollapsedLines, Shrunk, ToldAll;
    FilesHaveLines(items);
    SqueezedFile(items, 0);
    CollapsedIsSqueezed(ls);
    after := SqueezeItems(items, 0);
    WithEmptyLine(after);
    if CollapsedLines(ls) != SqueezeLines(ls, 0) {
      var more := after + [Loose("")];
      assert SitesOf(more) == SitesOf(after) && FileOpens(more) == FileOpens(after);
      after := more;
    } else {
      CollapsedSome(ls);
      FilesHaveLines(after);
    }
  }

  lemma CollapsedSome(ls: seq<string>)
    requires ls != []
    ensures CollapsedLines(ls) != []
  {
  }

  // ---- the end of a file ----

  /** A block ends with the line that closes it. */
  lemma {:induction false} LastCloses(ls: seq<string>, d: int)
    requires Closes(ls, d) && d > 0
    ensures ls != [] && Last(ls) != ""
    decreases |ls|
  {
    hide BraceNet, CodeLine;
    EmptyNet();
    if ls[1..] != [] {
      ClosesMore(ls, d);
      LastCloses(ls[1..], d + Net(ls[0]));
      assert Last(ls[1..]) == Last(ls);
    } else {
      ClosesMore(ls, d);
    }
  }

  lemma {:induction false} LastFree(w: seq<string>)
    requires AllFree(w) && w != [] && Last(w) != ""
    ensures Physical(Frees(w)) != [] && Last(Physical(Frees(w))) != ""
  {
    hide FreeLine, LinesOf, Physical, Frees;
    assert w[0] in w && forall l :: l in w[1..] ==> l in w;
    assert w == [w[0]] + w[1..];
    FirstFree(w[0], w[1..]);
    LinesOfText(w[0]);
    if |w| > 1 {
      assert Last(w[1..]) == Last(w);
      LastFree(w[1..]);
      assert Last(LinesOf(w[0]) + Physical(Frees(w[1..]))) == Last(Physical(Frees(w[1..])));
    } else {
      FreeIsUnit(w[0]);
      FirstLineSpeaks(w[0]);
      NothingFree();
      assert w[1..] == [] && LinesOf(w[0]) + [] == LinesOf(w[0]);
    }
  }

  /** A file that ends in an empty line ends in an empty line of its own. */
  lemma LastItemSpeaks(it: Item)
    requires Tight(it) && it != Loose("")
    ensures var p := Physical(PiecesOf(it)); p != [] && Last(p) != ""
  {
    hide TightBody, Physical, ReadTopLine, BraceNet, CodeLine, FreeLine, Closes, MarkOf, OddBackticks, OpenAfter,
      MarkerPrefixed, LinesOf, Frees;
    PhysicalOne(it);
    match it {
      case Managed(r) =>
        MarkSpeaks(r.end);
        assert Last(PhysicalOf(r)) == r.end;
      case Loose(l) =>
        FreeIsUnit(l);
        FirstLineSpeaks(l);
        LinesOfText(l);
      case Options(ls) =>
        SqueezedClean(ls, 0);
        OpaqueEnds(ls);
        LastFree(ls);
      case Site(ls) =>
        SqueezedClean(ls, 0);
        OpaqueEnds(ls);
        LastFree(ls);
    }
  }

  lemma OpaqueEnds(ls: seq<string>)
    requires ls != [] && Closes(ls[1..], Net(ls[0])) &&
      (ReadTopLine(ls[0], Code(ls[0])).Opening? || ReadTopLine(ls[0], Code(ls[0])).Opaque?)
    ensures Last(ls) != ""
  {
    hide BraceNet, CodeLine, ReadTopLine, Closes;
    OpeningSpeaks(ls[0]);
    if |ls| > 1 {
      ClosesAreOpen(ls[1..], Net(ls[0]));
      LastCloses(ls[1..], Net(ls[0]));
      assert Last(ls[1..]) == Last(ls);
    }
  }

  lemma ClosesAreOpen(ls: seq<string>, d: int)
    requires Closes(ls, d) && ls != []
    ensures d > 0
  {
  }

  lemma {:induction false} TrimmedTail(ls: seq<string>, items: seq<Item>) returns (after: seq<Item>)
    requires ls != [] && AreFile(ls, items)
    ensures AreFile(TrimRightLines(ls), after) && SameSites(after, items)
    decreases |items|
  {
    hide Tight, Physical, Pieces, PiecesOf, SameSites, TrimRightLines, Last;
    var front, it := items[..|items| - 1], items[|items| - 1];
    assert items == front + [it] && it in items && forall x :: x in front ==> x in items;
    LastPart(front, it);
    SameSelf(items);
    after := items;
    if it != Loose("") {
      LastItemSpeaks(it);
      LastOfConcat(Physical(Pieces(front)), Physical(PiecesOf(it)));
      SpokenEnd(ls);
    } else if front == [] {
      OneLineEnds("");
    } else {
      FilesHaveLines(front);
      after := TrimmedTail(Physical(Pieces(front)), front);
      TrimmedMore(Physical(Pieces(front)));
      FrontSame(front, it);
      SameTrans(after, front, items);
    }
  }

  lemma LastPart(front: seq<Item>, it: Item)
    ensures Physical(Pieces(front + [it])) == Physical(Pieces(front)) + Physical(PiecesOf(it))
    ensures it == Loose("") ==>
      Physical(PiecesOf(it)) == [""] && (front == [] ==> Physical(Pieces(front + [it])) == [""])
  {
    hide Physical, PiecesOf;
    PiecesConcat(front, [it]);
    ViewedConcat(Pieces(front), Pieces([it]));
    OneItem(it);
    if it == Loose("") {
      EmptyLineIsTight();
      assert front == [] ==> front + [it] == [it];
    }
  }

  lemma LastOfConcat(a: seq<string>, b: seq<string>)
    requires b != []
    ensures Last(a + b) == Last(b)
  {
  }

  lemma OneLineEnds(l: string)
    ensures TrimRightLines([l]) == [l]
  {
  }

  lemma TrimmedMore(ls: seq<string>)
    requires ls != []
    ensures TrimRightLines(ls + [""]) == TrimRightLines(ls)
  {
    assert Front(ls + [""]) == ls && Last(ls + [""]) == "";
  }

  lemma SpokenEnd(ls: seq<string>)
    requires ls != [] && Last(ls) != ""
    ensures TrimRightLines(ls) == ls
  {
  }

  lemma FrontSame(front: seq<Item>, it: Item)
    requires !it.Site?
    ensures SameSites(front, front + [it])
  {
    hide SameSites;
    SameSelf(front);
    SiteLessGoes(it);
    SameConcat(front, [], front, [it]);
    assert front + [] == front;
  }
}
