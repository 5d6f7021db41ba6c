/** Adopting foreign site blocks is exact (internal/caddy/routes.go). */
module Adoption {
  import opened Wrappers
  import opened Lines
  import opened Text
  import opened TextLines
  import opened Regions
  import opened RegionLaws
  import opened RouteLex
  import opened Routes
  import opened RouteAddress
  import opened RoutePieces
  import opened RouteItems

  // ---- what adoption should do ----

  function KeyOf(b: SiteBlock): string { if b.lines == [] then "" else Code(b.lines[0]) }

  predicate Edited(b: SiteBlock, hosts: seq<string>) { !EditOf(b, hosts).Keep? }

  /** A block without the requested hosts: gone, on a shorter address line, or as
      it was. */
  function EditBlock(b: SiteBlock, hosts: seq<string>): seq<SiteBlock> {
    match EditOf(b, hosts)
    case Keep => [b]
    case Drop => []
    case Rewrite(line) => if b.lines == [] then []
      else [SiteBlock(KeptAddresses(b.addresses, hosts), [line] + b.lines[1..])]
  }

  function EditBlocks(bs: seq<SiteBlock>, hosts: seq<string>): seq<SiteBlock> {
    if bs == [] then [] else EditBlock(bs[0], hosts) + EditBlocks(bs[1..], hosts)
  }

  function EditItem(it: Item, hosts: seq<string>): seq<Item> {
    if it.Site? && it.lines != [] then
      match EditOf(BlockOf(it.lines), hosts)
      case Keep => [it]
      case Drop => []
      case Rewrite(line) => [Site([line] + it.lines[1..])]
    else [it]
  }

  function EditItems(items: seq<Item>, hosts: seq<string>): seq<Item> {
    if items == [] then [] else EditItem(items[0], hosts) + EditItems(items[1..], hosts)
  }

  // ---- when it can be exact ----

  function KeysOf(bs: seq<SiteBlock>, hosts: seq<string>): set<string> {
    set b | b in bs && Edited(b, hosts) :: KeyOf(b)
  }

  /** The lines of an item that are not the address line of an edited block. */
  function OtherLines(it: Item, hosts: seq<string>): seq<string> {
    if it.Site? && it.lines != [] && Edited(BlockOf(it.lines), hosts) then it.lines[1..] else LinesOfItem(it)
  }

  predicate NoCode(ls: seq<string>, keys: set<string>) { forall l :: l in ls ==> Code(l) !in keys }

  /** The address line of every block that is edited occurs once in the file. */
  ghost predicate UniqueAddressLines(items: seq<Item>, hosts: seq<string>) {
    var bs := SitesOf(items);
    && (forall i, j ::
      0 <= i < j < |bs| && Edited(bs[i], hosts) && Edited(bs[j], hosts) ==> KeyOf(bs[i]) != KeyOf(bs[j]))
    && forall it :: it in items ==> NoCode(OtherLines(it, hosts), KeysOf(bs, hosts))
  }

  /** A block that is rewritten opens one brace, and the addresses it keeps stand
      on their own. */
  predicate Rewritable(b: SiteBlock, hosts: seq<string>) {
    EditOf(b, hosts).Rewrite? ==>
      && BraceNet(KeyOf(b)) == 1
      && forall a :: a in KeptAddresses(b.addresses, hosts) ==> PlainAddress(a)
  }

  ghost predicate Adoptable(items: seq<Item>, hosts: seq<string>) {
    && items != [] && GoodItems(items) && UniqueAddressLines(items, hosts)
    && forall b :: b in SitesOf(items) ==> Rewritable(b, hosts)
  }

  // ---- the edit maps ----

  /** The maps hold exactly the edited blocks, by their address lines. */
  ghost predicate MapsHold(bs: seq<SiteBlock>, hosts: seq<string>, e: EditMaps) {
    && e.drop <= KeysOf(bs, hosts) && e.rewrite.Keys <= KeysOf(bs, hosts)
    && forall b :: b in bs ==>
         match EditOf(b, hosts)
         case Keep => true
         case Drop => KeyOf(b) in e.drop
         case Rewrite(line) => KeyOf(b) !in e.drop && KeyOf(b) in e.rewrite && e.rewrite[KeyOf(b)] == line
  }

  ghost predicate DistinctKeys(bs: seq<SiteBlock>, hosts: seq<string>) {
    forall i, j :: 0 <= i < j < |bs| && Edited(bs[i], hosts) && Edited(bs[j], hosts) ==> KeyOf(bs[i]) != KeyOf(bs[j])
  }

  ghost predicate Readable(bs: seq<SiteBlock>) {
    forall b :: b in bs ==> b.lines != [] && Coded(b.lines[0])
  }

  /** The maps with one more block. */
  function MoreEdits(e: EditMaps, b: SiteBlock, hosts: seq<string>): EditMaps {
    match EditOf(b, hosts)
    case Keep => e
    case Drop => e.(drop := e.drop + {KeyOf(b)})
    case Rewrite(line) => e.(rewrite := e.rewrite[KeyOf(b) := line])
  }

  lemma MoreEditsHold(front: seq<SiteBlock>, b: SiteBlock, hosts: seq<string>, e: EditMaps)
    requires MapsHold(front, hosts, e)
    requires forall c :: c in front && Edited(c, hosts) && Edited(b, hosts) ==> KeyOf(c) != KeyOf(b)
    ensures MapsHold(front + [b], hosts, MoreEdits(e, b, hosts))
  {
    hide EditOf, KeyOf;
    var bs, e2 := front + [b], MoreEdits(e, b, hosts);
    assert forall c :: c in bs <==> c in front || c == b;
    assert KeysOf(front, hosts) <= KeysOf(bs, hosts);
    assert Edited(b, hosts) ==> KeyOf(b) in KeysOf(bs, hosts);
    assert Edited(b, hosts) ==> KeyOf(b) !in KeysOf(front, hosts);
  }

  lemma EditsForSnoc(front: seq<SiteBlock>, b: SiteBlock, hosts: seq<string>)
    requires EditsFor(front, hosts).Ok? && b.lines != [] && Coded(b.lines[0])
    ensures EditsFor(front + [b], hosts) == Ok(MoreEdits(EditsFor(front, hosts).value, b, hosts))
  {
    hide EditOf, CodeLine;
    assert (front + [b])[..|front|] == front;
  }

  lemma {:induction false} EditsHold(bs: seq<SiteBlock>, hosts: seq<string>)
    requires DistinctKeys(bs, hosts) && Readable(bs)
    ensures EditsFor(bs, hosts).Ok? && MapsHold(bs, hosts, EditsFor(bs, hosts).value)
  {
    hide EditOf, CodeLine, KeyOf, MoreEdits;
    if bs == [] {
      assert KeysOf([], hosts) == {};
    } else {
      hide MapsHold, EditsFor;
      var front, b := bs[..|bs| - 1], bs[|bs| - 1];
      assert DistinctKeys(front, hosts) && Readable(front);
      EditsHold(front, hosts);
      assert b in bs && b.lines != [] && Coded(b.lines[0]);
      assert bs == front + [b];
      forall c | c in front && Edited(c, hosts) && Edited(b, hosts) ensures KeyOf(c) != KeyOf(b) {
        var i :| 0 <= i < |front| && front[i] == c;
        assert bs[i] == c;
      }
      EditsForSnoc(front, b, hosts);
      MoreEditsHold(front, b, hosts, EditsFor(front, hosts).value);
    }
  }

  // ---- applying them ----

  predicate NoKeys(ls: seq<string>, e: EditMaps) { forall l :: l in ls ==> Code(l) !in e.drop && Code(l) !in e.rewrite }

  lemma {:induction false} ApplyKeep(ls: seq<string>, e: EditMaps, d: int, rest: seq<string>)
    requires NoKeys(ls, e) && AllCoded(ls)
    ensures ApplyFrom(ls + rest, e, false, d) == ConsLines(ls, ApplyFrom(rest, e, false, d))
    decreases |ls|
  {
    hide CodeLine, BraceNet;
    if ls == [] {
      assert ls + rest == rest;
      assert ApplyFrom(rest, e, false, d).Ok? ==>
        [] + ApplyFrom(rest, e, false, d).value == ApplyFrom(rest, e, false, d).value;
    } else {
      assert ls[0] in ls && forall l :: l in ls[1..] ==> l in ls;
      assert (ls + rest)[1..] == ls[1..] + rest;
      ApplyKeep(ls[1..], e, d, rest);
      ConsLinesTwice([ls[0]], ls[1..], ApplyFrom(rest, e, false, d));
      assert [ls[0]] + ls[1..] == ls;
    }
  }

  /** Skipping a block ends with the line that closes it. */
  lemma {:induction false} ApplySkip(ls: seq<string>, e: EditMaps, d: int, rest: seq<string>)
    requires d > 0 && Closes(ls, d) && AllCoded(ls)
    ensures exists d2 :: ApplyFrom(ls + rest, e, true, d) == ApplyFrom(rest, e, false, d2)
    decreases |ls|
  {
    hide CodeLine, BraceNet;
    ClosesMore(ls, d);
    assert ls[0] in ls && forall l :: l in ls[1..] ==> l in ls;
    assert (ls + rest)[1..] == ls[1..] + rest;
    if ls[1..] == [] {
      assert ls[1..] + rest == rest;
      assert ApplyFrom(ls + rest, e, true, d) == ApplyFrom(rest, e, false, 0);
    } else {
      ApplySkip(ls[1..], e, d + Net(ls[0]), rest);
    }
  }

  /** The depth matters only while skipping. */
  lemma {:induction false} DepthIsIdle(ls: seq<string>, e: EditMaps, d: int, d2: int)
    ensures ApplyFrom(ls, e, false, d) == ApplyFrom(ls, e, false, d2)
    decreases |ls|
  {
    hide CodeLine, BraceNet;
    if ls != [] {
      DepthIsIdle(ls[1..], e, d, d2);
    }
  }

  lemma ApplySite(ls: seq<string>, hosts: seq<string>, e: EditMaps, rest: seq<string>)
    requires GoodItem(Site(ls)) && NoKeys(OtherLines(Site(ls), hosts), e)
    requires match EditOf(BlockOf(ls), hosts)
             case Keep => true
             case Drop => Code(ls[0]) in e.drop
             case Rewrite(line) => Code(ls[0]) !in e.drop && Code(ls[0]) in e.rewrite && e.rewrite[Code(ls[0])] == line
    ensures ApplyFrom(ls + rest, e, false, 0) ==
      ConsLines(match EditOf(BlockOf(ls), hosts) case Keep => ls case Drop => [] case Rewrite(line) => [line] + ls[1..],
        ApplyFrom(rest, e, false, 0))
  {
    hide CodeLine, BraceNet, ReadTopLine, EditOf, Clean;
    var l, more := ls[0], ls[1..];
    assert l in ls && forall x :: x in more ==> x in ls;
    forall x | x in ls ensures Coded(x) { CleanReads(x); }
    assert (ls + rest)[1..] == more + rest;
    OpeningNet(l);
    match EditOf(BlockOf(ls), hosts) {
      case Keep => ApplyKeep(ls, e, 0, rest);
      case Drop =>
        ApplySkip(more, e, Net(l), rest);
        var d :| ApplyFrom(more + rest, e, true, Net(l)) == ApplyFrom(rest, e, false, d);
        DepthIsIdle(rest, e, d, 0);
        assert ApplyFrom(rest, e, false, 0).Ok? ==>
          [] + ApplyFrom(rest, e, false, 0).value == ApplyFrom(rest, e, false, 0).value;
      case Rewrite(line) =>
        ApplyKeep(more, e, 0, rest);
        ConsLinesTwice([line], more, ApplyFrom(rest, e, false, 0));
    }
  }

  lemma OpeningNet(l: string)
    requires ReadTopLine(l, Code(l)).Opening?
    ensures Net(l) > 0
  {
  }

  /** The lines of an edited item. */
  function EditedLines(it: Item, hosts: seq<string>): seq<string> {
    Whole(Pieces(EditItem(it, hosts)))
  }

  lemma OneItem(it: Item)
    ensures Pieces([it]) == PiecesOf(it)
  {
    assert [it][1..] == [];
    assert PiecesOf(it) + [] == PiecesOf(it);
  }

  lemma WholeItem(it: Item)
    requires GoodItem(it)
    ensures Whole(PiecesOf(it)) == LinesOfItem(it)
  {
    hide CodeLine, ReadTopLine, Clean;
    match it {
      case Managed(r) => OnePiece(r);
      case Loose(l) => OnePiece(Free(l));
      case Options(ls) => ViewedFrees(ls);
      case Site(ls) => ViewedFrees(ls);
    }
  }

  lemma RegionIsCoded(r: Piece)
    requires r.Region? && MarkOf(r.begin) != Plain && MarkOf(r.end) != Plain && AllCoded(LogicalLines(r.body))
    ensures AllCoded(WholeOf(r))
  {
    hide Coded, MarkOf, LogicalLines, TrimSpace, Code;
    MarkerIsCoded(r.begin);
    MarkerIsCoded(r.end);
    CodedConcat([r.begin], LogicalLines(r.body));
    CodedConcat([r.begin] + LogicalLines(r.body), [r.end]);
  }

  lemma CodedConcat(a: seq<string>, b: seq<string>)
    requires AllCoded(a) && AllCoded(b)
    ensures AllCoded(a + b)
  {
  }

  lemma MarkerIsCoded(l: string)
    requires MarkOf(l) != Plain
    ensures Coded(l)
  {
    MarkerIsComment(l);
  }

  lemma ItemIsCoded(it: Item)
    requires GoodItem(it)
    ensures AllCoded(LinesOfItem(it))
  {
    hide CodeLine, ReadTopLine, MarkOf, HeredocTerminator, FreeLine, Closes, LogicalLines, OddBackticks;
    if it.Managed? {
      RegionIsCoded(it.region);
    } else if !it.Loose? {
      forall l | l in it.lines ensures Coded(l) {
        CleanReads(l);
      }
    }
  }

  lemma ApplyItem(it: Item, hosts: seq<string>, e: EditMaps, rest: seq<string>)
    requires GoodItem(it) && NoKeys(OtherLines(it, hosts), e)
    requires it.Site? ==>
             match EditOf(BlockOf(it.lines), hosts)
             case Keep => true
             case Drop => Code(it.lines[0]) in e.drop
             case Rewrite(line) =>
               var key := Code(it.lines[0]);
               key !in e.drop && key in e.rewrite && e.rewrite[key] == line
    ensures ApplyFrom(LinesOfItem(it) + rest, e, false, 0) ==
      ConsLines(EditedLines(it, hosts), ApplyFrom(rest, e, false, 0))
  {
    hide CodeLine, ReadTopLine, EditOf, Clean, Whole, PiecesOf, ApplyFrom;
    if it.Site? {
      ApplySite(it.lines, hosts, e, rest);
      match EditOf(BlockOf(it.lines), hosts) {
        case Keep =>
          OneItem(it);
          WholeItem(it);
        case Drop =>
          assert Whole([]) == [] by { NothingIsWhole(); }
        case Rewrite(line) =>
          OneItem(Site([line] + it.lines[1..]));
          SitePieces([line] + it.lines[1..]);
      }
    } else {
      ItemIsCoded(it);
      ApplyKeep(LinesOfItem(it), e, 0, rest);
      OneItem(it);
      WholeItem(it);
    }
  }

  lemma NothingIsWhole()
    ensures Whole([]) == []
  {
  }

  lemma SitePieces(ls: seq<string>)
    ensures Whole(PiecesOf(Site(ls))) == ls
  {
    ViewedFrees(ls);
  }

  lemma {:induction false} PiecesConcat(a: seq<Item>, b: seq<Item>)
    ensures Pieces(a + b) == Pieces(a) + Pieces(b)
  {
    hide PiecesOf;
    if a == [] {
      assert a + b == b;
    } else {
      assert (a + b)[1..] == a[1..] + b;
      PiecesConcat(a[1..], b);
    }
  }

  lemma {:induction false} SitesMember(items: seq<Item>, it: Item)
    requires it in items && it.Site? && it.lines != []
    ensures BlockOf(it.lines) in SitesOf(items)
  {
    hide BlockOf;
    if items[0] != it {
      assert it in items[1..];
      SitesMember(items[1..], it);
    }
  }

  /** Applying the edits to the logical lines edits the items. */
  lemma {:induction false} ApplyItems(items: seq<Item>, hosts: seq<string>, bs: seq<SiteBlock>, e: EditMaps)
    requires GoodItems(items) && MapsHold(bs, hosts, e)
    requires forall b :: b in SitesOf(items) ==> b in bs
    requires forall it :: it in items ==> NoCode(OtherLines(it, hosts), KeysOf(bs, hosts))
    ensures ApplyFrom(Whole(Pieces(items)), e, false, 0) == Ok(Whole(Pieces(EditItems(items, hosts))))
  {
    hide CodeLine, EditOf, GoodItem, OtherLines, EditItem, PiecesOf, ApplyFrom, Whole, EditedLines, LinesOfItem,
      KeysOf, BlockOf;
    if items == [] {
      NothingIsWhole();
      assert ApplyFrom([], e, false, 0) == Ok([]) by { NothingApplies(e); }
    } else {
      var it, rest := items[0], items[1..];
      assert it in items && forall x :: x in rest ==> x in items;
      ApplyItems(rest, hosts, bs, e);
      assert NoCode(OtherLines(it, hosts), KeysOf(bs, hosts));
      assert GoodItem(it);
      if it.Site? {
        SiteHasLines(it);
        SitesMember(items, it);
        BlockKey(it.lines);
      }
      ApplyItem(it, hosts, e, Whole(Pieces(rest)));
      ViewedConcat(PiecesOf(it), Pieces(rest));
      WholeItem(it);
      PiecesConcat(EditItem(it, hosts), EditItems(rest, hosts));
      ViewedConcat(Pieces(EditItem(it, hosts)), Pieces(EditItems(rest, hosts)));
      EditedLinesAre(it, hosts);
    }
  }

  lemma EditedLinesAre(it: Item, hosts: seq<string>)
    ensures EditedLines(it, hosts) == Whole(Pieces(EditItem(it, hosts)))
  {
  }

  lemma NothingApplies(e: EditMaps)
    ensures ApplyFrom([], e, false, 0) == Ok([])
  {
  }

  lemma SiteHasLines(it: Item)
    requires GoodItem(it) && it.Site?
    ensures it.lines != []
  {
  }

  lemma BlockKey(ls: seq<string>)
    requires ls != []
    ensures KeyOf(BlockOf(ls)) == Code(ls[0])
  {
  }
}
