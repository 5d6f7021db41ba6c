/** Reading a file over the wire trims it: what that does to its items
    (internal/ssh/remote.go, internal/caddy/routes.go). */
module FileReads {
  import opened Wrappers
  import opened Lines
  import opened Text
  import opened TextLines
  import opened Regions
  import opened RegionEdit
  import opened RouteLex
  import opened Routes
  import opened RouteAddress
  import opened RoutePieces
  import opened RouteSpaces
  import opened RouteItems
  import opened Adoption
  import opened FileItems
  import opened FileEdits

  // ---- a logical line with white space cut off ----

  /** Two lines that the parser takes alike. */
  predicate SameLine(t: string, l: string) {
    var a, b := ReadTopLine(t, Code(t)), ReadTopLine(l, Code(l));
    && Coded(t) && Net(t) == Net(l) && Opened(t) == Opened(l)
    && (a.Skipped? <==> b.Skipped?) && (a.Opaque? <==> b.Opaque?) && (a.Opening? <==> b.Opening?)
  }

  lemma SpacesOfBlank(code: string)
    requires TrimSpace(code) == ""
    ensures Spaces(code)
  {
    hide Trim;
    var a, c := TrimParts(code, IsSpace);
    assert code == a + "" + c;
  }

  /** White space around code changes nothing the parser looks at. */
  lemma CodeAround(a: string, x: string, c: string)
    requires Spaces(a) && Spaces(c) && '\n' !in a
    ensures TrimSpace(a + x + c) == TrimSpace(x) && BraceNet(a + x + c) == BraceNet(x)
    ensures HeredocTerminator(a + x + c) == HeredocTerminator(x)
  {
    hide BraceNet, HeredocTerminator, Trim;
    TrimAround(a, x, c, IsSpace);
    BracesAround(a, x, c);
    if TrimSpace(x) == "" {
      SpacesOfBlank(x);
      BlankLine(x);
      BlankLine(a + x + c);
    } else {
      SpacesAround(a, x, c);
    }
  }

  lemma CutCode(a: string, t: string, c: string)
    requires Spaces(a) && Spaces(c) && '\n' !in a && Coded(a + t + c)
    ensures Coded(t) && (Code(a + t + c) == a + Code(t) + c || Code(a + t + c) == a + Code(t) + "")
  {
    hide CodeFrom;
    SpacesArePlain(a);
    assert a + t + c == a + (t + c);
    PlainThen(a, t + c);
    CodeBeforeSpaces(t, c, None);
    assert a + (Code(t) + c) == a + Code(t) + c;
  }

  lemma SameTop(t: string, l: string)
    requires Coded(t) && TrimSpace(Code(t)) == TrimSpace(Code(l)) && BraceNet(Code(t)) == BraceNet(Code(l))
    ensures SameLine(t, l)
  {
    hide CodeLine, BraceNet, SplitAddressLine, ImportLike, Trim;
  }

  lemma CutReads(a: string, t: string, c: string)
    requires Spaces(a) && Spaces(c) && '\n' !in a && Coded(a + t + c)
    ensures SameLine(t, a + t + c) && HeredocTerminator(Code(t)) == HeredocTerminator(Code(a + t + c))
  {
    hide CodeLine, HeredocTerminator, BraceNet, TrimSpace, SameLine;
    CutCode(a, t, c);
    CodeAround(a, Code(t), c);
    CodeAround(a, Code(t), "");
    SameTop(t, a + t + c);
  }

  // ---- and its physical lines ----

  lemma {:induction false} LinesAfterText(a: string, t: string)
    requires '\n' !in a
    ensures LinesOf(a + t) == [a + LinesOf(t)[0]] + LinesOf(t)[1..]
  {
    hide LinesOf;
    if a == "" {
      assert a + t == t && a + LinesOf(t)[0] == LinesOf(t)[0];
    } else {
      assert a[0] in a && forall x :: x in a[1..] ==> x in a;
      LinesAfterText(a[1..], t);
      LinesAfterChar(a[0], a[1..] + t);
      assert a + t == [a[0]] + (a[1..] + t);
      assert a + LinesOf(t)[0] == [a[0]] + (a[1..] + LinesOf(t)[0]);
    }
  }

  lemma {:induction false} LinesBeforeText(t: string, c: string)
    requires '\n' !in c
    ensures LinesOf(t + c) == Front(LinesOf(t)) + [Last(LinesOf(t)) + c]
  {
    hide LinesOf;
    if c == "" {
      assert t + c == t && Last(LinesOf(t)) + c == Last(LinesOf(t));
      assert LinesOf(t) == Front(LinesOf(t)) + [Last(LinesOf(t))];
    } else {
      var front, x := c[..|c| - 1], c[|c| - 1];
      assert x in c && forall y :: y in front ==> y in c;
      LinesBeforeText(t, front);
      SplitSnocChar(t + front, x);
      assert t + c == t + front + [x];
      assert Last(LinesOf(t)) + c == Last(LinesOf(t)) + front + [x];
    }
  }

  lemma {:induction false} SqueezeAfterText(a: string, t: string, n: nat)
    requires '\n' !in a
    ensures Squeeze(a + t, n) == a + Squeeze(t, if a == "" then n else 0)
  {
    if a == "" {
      assert a + t == t;
    } else {
      assert a[0] in a && forall x :: x in a[1..] ==> x in a;
      assert a + t == [a[0]] + (a[1..] + t);
      SqueezeAfterText(a[1..], t, 0);
      SqueezeChar(a[0], a[1..] + t, n);
    }
  }

  lemma {:induction false} SqueezeBeforeText(t: string, c: string, n: nat)
    requires '\n' !in c
    ensures Squeeze(t + c, n) == Squeeze(t, n) + c
  {
    hide Squeeze;
    SqueezeNothing(n);
    SqueezeNothing(0);
    if t == "" {
      assert t + c == c + "" && "" + c == c && c + "" == c;
      SqueezeAfterText(c, "", n);
    } else {
      assert t + c == [t[0]] + (t[1..] + c);
      assert t == [t[0]] + t[1..];
      if t[0] == '\n' {
        SqueezeNewline(t[1..] + c, n);
        SqueezeNewline(t[1..], n);
        SqueezeBeforeText(t[1..], c, n);
        SqueezeBeforeText(t[1..], c, n + 1);
      } else {
        SqueezeChar(t[0], t[1..] + c, n);
        SqueezeChar(t[0], t[1..], n);
        SqueezeBeforeText(t[1..], c, 0);
      }
    }
  }

  lemma SpacesKeepLine(a: string, x: string, c: string)
    requires Spaces(a) && Spaces(c)
    ensures OddBackticks(a + x + c) == OddBackticks(x) && (MarkerPrefixed(a + x + c) <==> MarkerPrefixed(x))
  {
    hide OddBackticks, Trim;
    TrimAround(a, x, c, IsSpace);
    SpacesParity(a);
    SpacesParity(c);
    BackticksConcat(a + x, c);
    BackticksConcat(a, x);
  }

  lemma HeadCutIsFree(a: string, t: string)
    requires Spaces(a) && '\n' !in a && FreeLine(a + t)
    ensures FreeLine(t)
  {
    hide OddBackticks, MarkerPrefixed, LinesOf, Squeeze;
    LinesAfterText(a, t);
    LinesOfText(t);
    LinesOfText(a + t);
    var ls, ts := LinesOf(a + t), LinesOf(t);
    SpacesKeepLine(a, ts[0], "");
    SpacesKeepLine(a, t, "");
    assert a + ts[0] + "" == a + ts[0] && a + t + "" == a + t;
    assert ts == [ts[0]] + ts[1..];
    assert forall i :: 0 < i < |ts| ==> ls[i] == ts[i];
    SqueezeAfterText(a, t, 0);
    assert a + Squeeze(t, 0) == a + t;
    assert (a + Squeeze(t, 0))[|a|..] == Squeeze(t, 0) && (a + t)[|a|..] == t;
    CutUnit(ls, ts, a + t, t);
  }

  lemma CutUnit(ls: seq<string>, ts: seq<string>, l: string, t: string)
    requires ls == LinesOf(l) && ts == LinesOf(t) && |ls| == |ts| && Unit(l)
    requires OddBackticks(t) == OddBackticks(l) && forall i :: 0 <= i < |ls| ==>
      OddBackticks(ts[i]) == OddBackticks(ls[i])
    ensures Unit(t)
  {
    hide OddBackticks, LinesOf;
    if |ls| != 1 {
      var n := |ls| - 1;
      assert Last(ls) == ls[n] && Last(ts) == ts[n] && 0 < n;
      forall i | 0 < i < n ensures !OddBackticks(ts[i]) {
        assert OddBackticks(ts[i]) == OddBackticks(ls[i]);
      }
    }
  }

  lemma TailCutIsFree(t: string, c: string)
    requires Spaces(c) && '\n' !in c && FreeLine(t + c)
    ensures FreeLine(t)
  {
    hide OddBackticks, MarkerPrefixed, LinesOf, Squeeze;
    LinesBeforeText(t, c);
    var ls, ts := LinesOf(t + c), LinesOf(t);
    var last := Last(ts);
    SpacesKeepLine("", last, c);
    SpacesKeepLine("", t, c);
    assert "" + last + c == last + c && "" + t + c == t + c;
    assert ts == Front(ts) + [last];
    assert forall i :: 0 <= i < |ts| - 1 ==> ls[i] == ts[i];
    assert ls[|ls| - 1] == last + c && ts[|ts| - 1] == last;
    SqueezeBeforeText(t, c, 0);
    assert Squeeze(t, 0) + c == t + c;
    assert (Squeeze(t, 0) + c)[..|t|] == Squeeze(t, 0) && (t + c)[..|t|] == t;
    assert forall l :: l in ts ==> l in ls || l == last;
    assert last + c in ls;
    CutUnit(ls, ts, t + c, t);
  }

  lemma HeadCutIsClean(a: string, t: string)
    requires Spaces(a) && '\n' !in a && Clean(a + t)
    ensures Clean(t) && SameLine(t, a + t)
  {
    hide FreeLine, HeredocTerminator, CodeLine, ReadTopLine, BraceNet;
    HeadCutIsFree(a, t);
    assert a + t + "" == a + t;
    CutReads(a, t, "");
  }

  lemma TailCutIsClean(t: string, c: string)
    requires Spaces(c) && '\n' !in c && Clean(t + c)
    ensures Clean(t) && SameLine(t, t + c)
  {
    hide FreeLine, HeredocTerminator, CodeLine, ReadTopLine, BraceNet;
    TailCutIsFree(t, c);
    assert "" + t + c == t + c;
    CutReads("", t, c);
  }

  // ---- the first line of an item ----

  function Head(it: Item): string {
    match it
    case Managed(r) => if r.Region? then r.begin else ""
    case Loose(l) => l
    case Options(ls) => if ls == [] then "" else ls[0]
    case Site(ls) => if ls == [] then "" else ls[0]
  }

  function WithHead(it: Item, t: string): Item {
    match it
    case Managed(r) => if r.Region? then Managed(r.(begin := t)) else it
    case Loose(l) => Loose(t)
    case Options(ls) => if ls == [] then it else Options([t] + ls[1..])
    case Site(ls) => if ls == [] then it else Site([t] + ls[1..])
  }

  /** Lines that open the same, with one in front that does. */
  lemma SameOpens(t: string, l: string, rest: seq<string>)
    requires Opened(t) == Opened(l)
    ensures Opens([t] + rest) == Opens([l] + rest)
  {
    assert ([t] + rest)[1..] == rest && ([l] + rest)[1..] == rest;
  }

  lemma SameBlock(t: string, ls: seq<string>)
    requires ls != [] && SameLine(t, ls[0]) && TrimSpace(t) == TrimSpace(ls[0])
    ensures Shrunk([BlockOf([t] + ls[1..])], [BlockOf(ls)])
    ensures ToldAll([BlockOf([t] + ls[1..])]) == ToldAll([BlockOf(ls)])
  {
    hide ReadTopLine, CodeLine, BraceNet, PlainAddress, Trim, ToldAll, Said;
    var after := [t] + ls[1..];
    assert after[1..] == ls[1..];
    assert LeftOf(BlockOf(after), BlockOf(ls));
    ShrunkOne(BlockOf(after), BlockOf(ls));
    ToldOne(BlockOf(after));
    ToldOne(BlockOf(ls));
  }

  lemma HeadCutBlock(ls: seq<string>, a: string, t: string)
    requires ls != [] && AllClean(ls) && ls[0] == a + t && Spaces(a) && '\n' !in a
    ensures var after := [t] + ls[1..];
      AllClean(after) && SameLine(t, ls[0]) && Opens(after) == Opens(ls)
      && Physical(Frees(ls)) == [a + Physical(Frees(after))[0]] + Physical(Frees(after))[1..]
  {
    hide Clean, SameLine, Opens, LinesOf, Physical, Frees, ReadTopLine;
    assert ls == [ls[0]] + ls[1..] && ls[0] in ls && forall l :: l in ls[1..] ==> l in ls;
    HeadCutIsClean(a, t);
    SameLineOpens(t, ls[0]);
    SameOpens(t, ls[0], ls[1..]);
    FirstFree(t, ls[1..]);
    FirstFree(ls[0], ls[1..]);
    LinesAfterText(a, t);
    HeadOfConcat(a, LinesOf(t), Physical(Frees(ls[1..])));
    CleanMore(t, ls);
  }

  lemma HeadOfConcat(a: string, q: seq<string>, p: seq<string>)
    requires q != []
    ensures [a + q[0]] + q[1..] + p == [a + (q + p)[0]] + (q + p)[1..]
  {
  }

  lemma CleanMore(t: string, ls: seq<string>)
    requires ls != [] && AllClean(ls) && Clean(t)
    ensures AllClean([t] + ls[1..])
  {
    hide Clean;
  }

  lemma SameLineOpens(t: string, l: string)
    requires SameLine(t, l)
    ensures Opened(t) == Opened(l) && Net(t) == Net(l)
  {
  }

  lemma HeadCutSite(ls: seq<string>, a: string, t: string)
    requires GoodItem(Site(ls)) && ls[0] == a + t && Spaces(a) && '\n' !in a
    ensures GoodItem(Site([t] + ls[1..])) && SameSites([Site([t] + ls[1..])], [Site(ls)])
    ensures Physical(Frees(ls)) == [a + Physical(Frees([t] + ls[1..]))[0]] + Physical(Frees([t] + ls[1..]))[1..]
  {
    hide Clean, ReadTopLine, CodeLine, BraceNet, Closes, Opens, Physical, Frees, BlockOf, Shrunk, ToldAll, Trim;
    HeadCutBlock(ls, a, t);
    var after := [t] + ls[1..];
    assert after[1..] == ls[1..];
    OneItemOpens(Site(after));
    OneItemOpens(Site(ls));
    SitesOfOne(Site(after));
    SitesOfOne(Site(ls));
    assert a + t + "" == a + t;
    TrimAround(a, t, "", IsSpace);
    SameBlock(t, ls);
  }

  lemma HeadCutOptions(ls: seq<string>, a: string, t: string)
    requires GoodItem(Options(ls)) && ls[0] == a + t && Spaces(a) && '\n' !in a
    ensures GoodItem(Options([t] + ls[1..])) && SameSites([Options([t] + ls[1..])], [Options(ls)])
    ensures Physical(Frees(ls)) == [a + Physical(Frees([t] + ls[1..]))[0]] + Physical(Frees([t] + ls[1..]))[1..]
  {
    hide Clean, ReadTopLine, CodeLine, BraceNet, Closes, Opens, Physical, Frees, ToldAll;
    HeadCutBlock(ls, a, t);
    var after := [t] + ls[1..];
    assert after[1..] == ls[1..];
    OneItemOpens(Options(after));
    OneItemOpens(Options(ls));
    SitesOfOne(Options(after));
    SitesOfOne(Options(ls));
  }

  lemma LooseCut(t: string, l: string)
    requires GoodItem(Loose(l)) && Clean(t) && SameLine(t, l)
    ensures GoodItem(Loose(t)) && SameSites([Loose(t)], [Loose(l)])
  {
    hide Clean, ReadTopLine, CodeLine, BraceNet, Opens;
    OneItemOpens(Loose(t));
    OneItemOpens(Loose(l));
    SitesOfOne(Loose(t));
    SitesOfOne(Loose(l));
    SameLineOpens(t, l);
    SameOpens(t, l, []);
    assert [t] + [] == [t] && [l] + [] == [l];
  }

  lemma MarkCut(a: string, t: string, c: string)
    requires Spaces(a) && Spaces(c)
    ensures MarkOf(t) == MarkOf(a + t + c) && OddBackticks(t) == OddBackticks(a + t + c)
  {
    hide MarkOf, Trim, OddBackticks, MarkerPrefixed;
    TrimAround(a, t, c, IsSpace);
    MarkOfTrimmed(t, a + t + c);
    SpacesKeepLine(a, t, c);
  }

  lemma RegionCut(r: Piece, begin: string, end: string)
    requires Tight(Managed(r)) && '\n' !in begin && '\n' !in end
    requires MarkOf(begin) == MarkOf(r.begin) && OddBackticks(begin) == OddBackticks(r.begin)
    requires MarkOf(end) == MarkOf(r.end) && OddBackticks(end) == OddBackticks(r.end)
    ensures var after := r.(begin := begin, end := end);
      Tight(Managed(after)) && SameSites([Managed(after)], [Managed(r)])
  {
    hide MarkOf, OddBackticks, TightBody, OpenAfter, LogicalFrom, Opens, MarkerPrefixed, Coded;
    var after := r.(begin := begin, end := end);
    TightRegion(r.app, begin, r.body, end);
    SameRegions(after, r);
  }

  lemma HeadCut(it: Item, a: string, t: string)
    requires Tight(it) && Head(it) == a + t && Spaces(a) && '\n' !in a
    ensures var after := WithHead(it, t);
      && Tight(after) && SameSites([after], [it])
      && Physical(PiecesOf(after)) != []
      && Physical(PiecesOf(it)) == [a + Physical(PiecesOf(after))[0]] + Physical(PiecesOf(after))[1..]
  {
    hide GoodItem, TightBody, Physical, LinesOf, Frees, SameSites, SameLine, MarkOf, Clean, ReadTopLine, OddBackticks;
    var after := WithHead(it, t);
    PhysicalOne(it);
    PhysicalOne(after);
    TightHasLines(it);
    match it {
      case Managed(r) =>
        assert a + t + "" == a + t;
        MarkCut(a, t, "");
        RegionHasLines(r);
        assert forall x :: x in t ==> x in r.begin;
        RegionCut(r, t, r.end);
      case Loose(l) =>
        LooseIsClean(l);
        HeadCutIsClean(a, t);
        LooseCut(t, l);
        LinesAfterText(a, t);
      case Options(ls) => HeadCutOptions(ls, a, t);
      case Site(ls) => HeadCutSite(ls, a, t);
    }
    TightHasLines(after);
  }

  lemma LooseIsClean(l: string)
    requires GoodItem(Loose(l))
    ensures Clean(l)
  {
  }

  lemma RegionHasLines(r: Piece)
    requires Tight(Managed(r))
    ensures r.Region? && '\n' !in r.begin && '\n' !in r.end
  {
  }

  lemma TightHasLines(it: Item)
    requires Tight(it)
    ensures Physical(PiecesOf(it)) != [] && (it.Options? || it.Site? ==> it.lines != []) &&
      (it.Managed? ==> it.region.Region?)
    ensures it.Options? ==> GoodItem(Options(it.lines))
    ensures it.Site? ==> GoodItem(Site(it.lines))
    ensures forall l :: l in Physical(PiecesOf(it)) ==> '\n' !in l
  {
    hide TightBody, Physical, PiecesOf;
    assert forall x :: x in [it] ==> x == it;
    FilesHaveLines([it]);
    OneItem(it);
  }

  /** The item's first physical line is that of its first logical line. */
  lemma HeadLine(it: Item)
    requires Tight(it)
    ensures Physical(PiecesOf(it)) != [] && Physical(PiecesOf(it))[0] == LinesOf(Head(it))[0]
  {
    hide TightBody, Physical, LinesOf, Frees, GoodItem;
    PhysicalOne(it);
    TightHasLines(it);
    match it {
      case Managed(r) =>
        RegionHasLines(r);
        SplitLine(r.begin, '\n');
        OneLineUnit(r.begin);
      case Loose(l) =>
      case Options(ls) =>
        assert ls == [ls[0]] + ls[1..];
        FirstFree(ls[0], ls[1..]);
      case Site(ls) =>
        assert ls == [ls[0]] + ls[1..];
        FirstFree(ls[0], ls[1..]);
    }
  }

  /** Only an empty or blank line of its own starts or ends with a blank one. */
  lemma BlankUnit(l: string)
    requires FreeLine(l)
    requires Spaces(LinesOf(l)[0]) || Spaces(Last(LinesOf(l)))
    ensures LinesOf(l) == [l] && Spaces(l)
  {
    hide OddBackticks, MarkerPrefixed, LinesOf;
    var ls := LinesOf(l);
    if Spaces(ls[0]) {
      SpacesParity(ls[0]);
    } else {
      SpacesParity(Last(ls));
    }
    LinesOfText(l);
    assert ls == [ls[0]];
    UnlinesOne(ls[0]);
  }

  lemma BlankSkipped(l: string)
    requires Spaces(l) && '\n' !in l
    ensures ReadTopLine(l, Code(l)).Skipped? && Net(l) == 0
  {
    SpacesRead(l, None);
    assert l + "" + "" == l;
    TrimAround(l, "", "", IsSpace);
    BracesAround(l, "", "");
  }

  lemma SpacesOfTrimmed(x: string)
    requires TrimLeft(x, IsSpace) == "" || TrimRight(x, IsSpace) == ""
    ensures Spaces(x)
  {
    var a := LeftPart(x, IsSpace);
    var c := RightPart(x, IsSpace);
    assert a + "" == a && "" + c == c;
  }

  lemma BlankHead(it: Item)
    requires Tight(it) && Physical(PiecesOf(it)) != [] && Spaces(Physical(PiecesOf(it))[0])
    ensures it.Loose? && Physical(PiecesOf(it)) == [it.line]
  {
    hide TightBody, Physical, LinesOf, Frees, MarkOf, OddBackticks, FreeLine, Closes, BraceNet, CodeLine;
    HeadLine(it);
    PhysicalOne(it);
    match it {
      case Managed(r) =>
        RegionHasLines(r);
        OneLineUnit(r.begin);
        MarkSpeaks(r.begin);
        BlankTrims(r.begin);
      case Loose(l) =>
        LooseIsFree(l);
        BlankUnit(l);
      case Options(ls) =>
        SqueezedClean(ls, 0);
        BlankUnit(ls[0]);
        LineOfOne(ls[0]);
        BlankSkipped(ls[0]);
      case Site(ls) =>
        SqueezedClean(ls, 0);
        BlankUnit(ls[0]);
        LineOfOne(ls[0]);
        BlankSkipped(ls[0]);
    }
  }

  lemma BlankTrims(x: string)
    requires Spaces(x)
    ensures TrimSpace(x) == ""
  {
    assert x + "" + "" == x;
    TrimAround(x, "", "", IsSpace);
  }

  lemma LineOfOne(l: string)
    requires LinesOf(l) == [l]
    ensures '\n' !in l
  {
    LinesOfText(l);
    assert l in [l];
  }

  // ---- the last ----

  function Tail(it: Item): string {
    match it
    case Managed(r) => if r.Region? then r.end else ""
    case Loose(l) => l
    case Options(ls) => if ls == [] then "" else Last(ls)
    case Site(ls) => if ls == [] then "" else Last(ls)
  }

  function WithTail(it: Item, t: string): Item {
    match it
    case Managed(r) => if r.Region? then Managed(r.(end := t)) else it
    case Loose(l) => Loose(t)
    case Options(ls) => if ls == [] then it else Options(Front(ls) + [t])
    case Site(ls) => if ls == [] then it else Site(Front(ls) + [t])
  }

  lemma {:induction false} ClosesLast(ls: seq<string>, d: int, t: string)
    requires Closes(ls, d) && ls != [] && Net(t) == Net(Last(ls))
    ensures Closes(Front(ls) + [t], d)
    decreases |ls|
  {
    hide Net;
    var after := Front(ls) + [t];
    if |ls| == 1 {
      assert after == [t] && after[1..] == [] && ls[1..] == [];
    } else {
      ClosesLast(ls[1..], d + Net(ls[0]), t);
      assert after[1..] == Front(ls[1..]) + [t] && after[0] == ls[0];
    }
  }

  lemma {:induction false} LastFrees(front: seq<string>, l: string)
    ensures Physical(Frees(front + [l])) == Physical(Frees(front)) + LinesOf(l)
  {
    hide LinesOf, Physical, Frees;
    if front == [] {
      NothingFree();
      OneFreeLine(l);
      assert front + [l] == [l] && [] + LinesOf(l) == LinesOf(l);
    } else {
      LastFrees(front[1..], l);
      FirstFree(front[0], front[1..] + [l]);
      FirstFree(front[0], front[1..]);
      assert front + [l] == [front[0]] + (front[1..] + [l]) && front == [front[0]] + front[1..];
    }
  }

  lemma TailCutBlock(ls: seq<string>, t: string, c: string)
    requires ls != [] && AllClean(ls) && Last(ls) == t + c && Spaces(c) && '\n' !in c
    ensures var after := Front(ls) + [t];
      var p := Physical(Frees(after));
      AllClean(after) && SameLine(t, Last(ls)) && Opens(after) == Opens(ls)
      && p != [] && Physical(Frees(ls)) == Front(p) + [Last(p) + c]
  {
    hide Clean, SameLine, Opens, LinesOf, Physical, Frees, ReadTopLine;
    assert ls == Front(ls) + [Last(ls)] && forall l :: l in Front(ls) ==> l in ls;
    assert Last(ls) in ls;
    TailCutIsClean(t, c);
    SameLineOpens(t, Last(ls));
    OpensConcat(Front(ls), [t]);
    OpensConcat(Front(ls), [Last(ls)]);
    SameOpens(t, Last(ls), []);
    assert [t] + [] == [t] && [Last(ls)] + [] == [Last(ls)];
    LastFrees(Front(ls), t);
    LastFrees(Front(ls), Last(ls));
    LinesBeforeText(t, c);
    var p, q := Physical(Frees(Front(ls))), LinesOf(t);
    assert p + (Front(q) + [Last(q) + c]) == Front(p + q) + [Last(p + q) + c];
  }

  lemma SaidTail(ls: seq<string>, t: string, c: string)
    requires ls != [] && Last(ls) == t + c && Spaces(c)
    ensures Said(Front(ls) + [t]) == Said(ls)
  {
    hide Trim, Said;
    assert ls == Front(ls) + [Last(ls)];
    SaidConcat(Front(ls), [t]);
    SaidConcat(Front(ls), [Last(ls)]);
    SaidOne(t);
    SaidOne(Last(ls));
    assert "" + t + c == t + c;
    TrimAround("", t, c, IsSpace);
  }

  lemma TailCutSite(ls: seq<string>, t: string, c: string)
    requires GoodItem(Site(ls)) && Last(ls) == t + c && Spaces(c) && '\n' !in c
    ensures var after := Front(ls) + [t];
      var p := Physical(Frees(after));
      GoodItem(Site(after)) && SameSites([Site(after)], [Site(ls)]) && p != [] &&
        Physical(Frees(ls)) == Front(p) + [Last(p) + c]
  {
    hide Clean, ReadTopLine, CodeLine, BraceNet, Closes, Opens, Physical, Frees, BlockOf, Shrunk, Opened, ToldAll,
      Said;
    TailCutBlock(ls, t, c);
    var after := Front(ls) + [t];
    SiteHasBody(ls);
    SameLineOpens(t, Last(ls));
    FrontOfRest(ls, t);
    ClosesLast(ls[1..], Net(ls[0]), t);
    OneItemOpens(Site(after));
    OneItemOpens(Site(ls));
    SitesOfOne(Site(after));
    SitesOfOne(Site(ls));
    SaidTail(ls[1..], t, c);
    SameHead(after, ls);
  }

  lemma FrontOfRest(ls: seq<string>, t: string)
    requires |ls| > 1
    ensures var after := Front(ls) + [t];
      after[0] == ls[0] && after[1..] == Front(ls[1..]) + [t] && Last(ls[1..]) == Last(ls)
  {
  }

  lemma SiteHasBody(ls: seq<string>)
    requires GoodItem(Site(ls))
    ensures |ls| > 1
  {
    hide CodeLine, BraceNet, TrimSpace, Clean;
    OpeningNet(ls[0]);
  }

  lemma TailCutOptions(ls: seq<string>, t: string, c: string)
    requires GoodItem(Options(ls)) && Last(ls) == t + c && Spaces(c) && '\n' !in c
    ensures var after := Front(ls) + [t];
      var p := Physical(Frees(after));
      GoodItem(Options(after)) && SameSites([Options(after)], [Options(ls)]) && p != [] &&
        Physical(Frees(ls)) == Front(p) + [Last(p) + c]
  {
    hide Clean, ReadTopLine, CodeLine, BraceNet, Opens, Physical, Frees, Closes, Opened;
    TailCutBlock(ls, t, c);
    var after := Front(ls) + [t];
    SameLineOpens(t, Last(ls));
    if |ls| > 1 {
      FrontOfRest(ls, t);
      ClosesLast(ls[1..], Net(ls[0]), t);
    } else {
      assert after == [t] && after[1..] == ls[1..] && ls[0] == Last(ls);
    }
    OneItemOpens(Options(after));
    OneItemOpens(Options(ls));
    SitesOfOne(Options(after));
    SitesOfOne(Options(ls));
  }

  lemma TailCut(it: Item, t: string, c: string)
    requires Tight(it) && Tail(it) == t + c && Spaces(c) && '\n' !in c
    ensures var after := WithTail(it, t);
      var p := Physical(PiecesOf(after));
      Tight(after) && SameSites([after], [it]) && p != [] && Physical(PiecesOf(it)) == Front(p) + [Last(p) + c]
  {
    hide GoodItem, TightBody, Physical, LinesOf, Frees, SameSites, SameLine, MarkOf, Clean, ReadTopLine, OddBackticks;
    var after := WithTail(it, t);
    PhysicalOne(it);
    PhysicalOne(after);
    TightHasLines(it);
    match it {
      case Managed(r) =>
        assert "" + t + c == t + c;
        MarkCut("", t, c);
        RegionHasLines(r);
        assert forall x :: x in t ==> x in r.end;
        RegionCut(r, r.begin, t);
        assert PhysicalOf(r.(end := t)) == ([r.begin] + r.body) + [t];
      case Loose(l) =>
        LooseIsClean(l);
        TailCutIsClean(t, c);
        LooseCut(t, l);
        LinesBeforeText(t, c);
      case Options(ls) => TailCutOptions(ls, t, c);
      case Site(ls) => TailCutSite(ls, t, c);
    }
    TightHasLines(after);
  }

  lemma TailLine(it: Item)
    requires Tight(it)
    ensures Physical(PiecesOf(it)) != [] && Last(Physical(PiecesOf(it))) == Last(LinesOf(Tail(it)))
  {
    hide TightBody, Physical, LinesOf, Frees, GoodItem;
    PhysicalOne(it);
    TightHasLines(it);
    match it {
      case Managed(r) =>
        RegionHasLines(r);
        OneLineUnit(r.end);
      case Loose(l) =>
      case Options(ls) =>
        assert ls == Front(ls) + [Last(ls)];
        LastFrees(Front(ls), Last(ls));
      case Site(ls) =>
        assert ls == Front(ls) + [Last(ls)];
        LastFrees(Front(ls), Last(ls));
    }
  }

  lemma LastLineEndsText(h: string)
    ensures var y := Last(LinesOf(h)); |y| <= |h| && h[|h| - |y|..] == y
  {
    hide LinesOf;
    LinesOfText(h);
    var ls := LinesOf(h);
    if |ls| == 1 {
      assert ls == [ls[0]];
      UnlinesOne(ls[0]);
    } else {
      assert ls == Front(ls) + [Last(ls)];
      UnlinesBoth(Front(ls), [Last(ls)]);
      UnlinesOne(Last(ls));
    }
  }

  lemma ClosingNet(ls: seq<string>)
    requires ls != [] && Closes(ls[1..], Net(ls[0])) && |ls| > 1
    ensures Net(Last(ls)) != 0
  {
    hide Net;
    ClosingLine(ls[1..], Net(ls[0]));
    assert Last(ls[1..]) == Last(ls);
  }

  lemma {:induction false} ClosingLine(ls: seq<string>, d: int)
    requires Closes(ls, d) && ls != []
    ensures Net(Last(ls)) != 0
    decreases |ls|
  {
    hide Net;
    if |ls| > 1 {
      ClosingLine(ls[1..], d + Net(ls[0]));
      assert Last(ls[1..]) == Last(ls);
    } else {
      assert ls[1..] == [];
    }
  }

  lemma BlankTail(it: Item)
    requires Tight(it) && Physical(PiecesOf(it)) != [] && Spaces(Last(Physical(PiecesOf(it))))
    ensures it.Loose? && Physical(PiecesOf(it)) == [it.line]
  {
    hide TightBody, Physical, LinesOf, Frees, MarkOf, OddBackticks, FreeLine, Closes, BraceNet, CodeLine, ReadTopLine;
    TailLine(it);
    PhysicalOne(it);
    match it {
      case Managed(r) =>
        RegionHasLines(r);
        OneLineUnit(r.end);
        MarkSpeaks(r.end);
        BlankTrims(r.end);
      case Loose(l) =>
        LooseIsFree(l);
        BlankUnit(l);
      case Options(ls) =>
        SqueezedClean(ls, 0);
        BlankUnit(Last(ls));
        LineOfOne(Last(ls));
        BlankSkipped(Last(ls));
        if |ls| > 1 {
          ClosingNet(ls);
        }
      case Site(ls) =>
        SqueezedClean(ls, 0);
        BlankUnit(Last(ls));
        LineOfOne(Last(ls));
        BlankSkipped(Last(ls));
        SiteHasBody(ls);
        ClosingNet(ls);
    }
  }

  // ---- trimming a file ----

  lemma FirstPart(it: Item, rest: seq<Item>)
    ensures Physical(Pieces([it] + rest)) == Physical(PiecesOf(it)) + Physical(Pieces(rest))
  {
    hide Physical, PiecesOf;
    assert ([it] + rest)[1..] == rest;
    ViewedConcat(PiecesOf(it), Pieces(rest));
  }

  lemma RestSame(it: Item, rest: seq<Item>)
    requires !it.Site?
    ensures SameSites(rest, [it] + rest)
  {
    hide SameSites;
    SameSelf(rest);
    SiteLessGoes(it);
    SameConcat([], rest, [it], rest);
    assert [] + rest == rest;
  }

  lemma ReplacedSame(c: Item, it: Item, rest: seq<Item>)
    requires SameSites([c], [it])
    ensures SameSites([c] + rest, [it] + rest) && SameSites(rest + [c], rest + [it])
  {
    hide SameSites;
    SameSelf(rest);
    SameConcat([c], rest, [it], rest);
    SameConcat(rest, [c], rest, [it]);
  }

  lemma TrimLeftStep(ls: seq<string>)
    requires ls != []
    ensures TrimLinesLeft(ls) ==
      if |ls| > 1 && TrimLeft(ls[0], IsSpace) == "" then TrimLinesLeft(ls[1..])
      else [TrimLeft(ls[0], IsSpace)] + ls[1..]
  {
  }

  lemma TrimRightStep(ls: seq<string>)
    requires ls != []
    ensures TrimLinesRight(ls) ==
      if |ls| > 1 && TrimRight(Last(ls), IsSpace) == "" then TrimLinesRight(Front(ls))
      else Front(ls) + [TrimRight(Last(ls), IsSpace)]
  {
  }

  lemma HeadTrimmed(it: Item, x: string) returns (after: Item)
    requires Tight(it) && Physical(PiecesOf(it)) != [] && Physical(PiecesOf(it))[0] == x
    ensures Tight(after) && SameSites([after], [it])
    ensures Physical(PiecesOf(after)) == [TrimLeft(x, IsSpace)] + Physical(PiecesOf(it))[1..]
  {
    hide Tight, Physical, PiecesOf, SameSites, LinesOf, TrimLeft, Head, WithHead;
    TightHasLines(it);
    HeadLine(it);
    var h := Head(it);
    FirstLineStarts(h);
    var a := LeftPart(x, IsSpace);
    assert forall c :: c in a ==> c in x;
    var t := h[|a|..];
    assert h == a + t by { assert x[..|a|] == a && h[..|a|] == x[..|a|]; }
    HeadCut(it, a, t);
    after := WithHead(it, t);
    var p := Physical(PiecesOf(after));
    assert x == a + p[0];
    assert p[0] == x[|a|..] && TrimLeft(x, IsSpace) == x[|a|..];
    assert p == [p[0]] + p[1..];
  }

  lemma TailTrimmed(it: Item, y: string) returns (after: Item)
    requires Tight(it) && Physical(PiecesOf(it)) != [] && Last(Physical(PiecesOf(it))) == y
    ensures Tight(after) && SameSites([after], [it])
    ensures Physical(PiecesOf(after)) == Front(Physical(PiecesOf(it))) + [TrimRight(y, IsSpace)]
  {
    hide Tight, Physical, PiecesOf, SameSites, LinesOf, TrimRight, Tail, WithTail, Last, Front;
    TightHasLines(it);
    TailLine(it);
    var h := Tail(it);
    LastLineEndsText(h);
    var c := RightPart(y, IsSpace);
    LastIsMember(Physical(PiecesOf(it)));
    assert forall x :: x in c ==> x in y;
    var t := h[..|h| - |c|];
    SuffixOfSuffix(h, y, TrimRight(y, IsSpace), c);
    TailCut(it, t, c);
    after := WithTail(it, t);
    TailOfCut(Physical(PiecesOf(it)), Physical(PiecesOf(after)), TrimRight(y, IsSpace), c);
  }

  lemma LastIsMember(ls: seq<string>)
    requires ls != []
    ensures Last(ls) in ls
  {
  }

  lemma SuffixOfSuffix(h: string, y: string, r: string, c: string)
    requires |y| <= |h| && h[|h| - |y|..] == y && y == r + c
    ensures h == h[..|h| - |c|] + c
  {
    assert h == h[..|h| - |y|] + y;
    assert h == h[..|h| - |y|] + r + c;
  }

  lemma TailOfCut(q: seq<string>, p: seq<string>, r: string, c: string)
    requires q != [] && p != [] && q == Front(p) + [Last(p) + c] && Last(q) == r + c
    ensures p == Front(q) + [r]
  {
    assert Last(p) + c == r + c;
    assert Last(p) == (Last(p) + c)[..|r|] && r == (r + c)[..|r|];
    assert p == Front(p) + [Last(p)];
  }

  lemma {:induction false} ReadLeft(ls: seq<string>, items: seq<Item>) returns (after: seq<Item>)
    requires ls != [] && AreFile(ls, items)
    ensures AreFile(TrimLinesLeft(ls), after) && SameSites(after, items)
    decreases |items|
  {
    hide Tight, Physical, Pieces, PiecesOf, SameSites, TrimLeft, TrimLinesLeft;
    var it, rest := items[0], items[1..];
    assert [it] + rest == items && it in items && forall x :: x in rest ==> x in items;
    FirstPart(it, rest);
    TightHasLines(it);
    FilesHaveLines(rest);
    TrimLeftStep(ls);
    var p, x := Physical(PiecesOf(it)), ls[0];
    assert p[0] == x;
    if |ls| > 1 && TrimLeft(x, IsSpace) == "" {
      SpacesOfTrimmed(x);
      BlankHead(it);
      assert ls[1..] == Physical(Pieces(rest));
      after := ReadLeft(ls[1..], rest);
      RestSame(it, rest);
      SameTrans(after, rest, items);
    } else {
      var c := HeadTrimmed(it, x);
      after := [c] + rest;
      FirstPart(c, rest);
      ReplacedSame(c, it, rest);
      assert [TrimLeft(x, IsSpace)] + ls[1..] == [TrimLeft(x, IsSpace)] + p[1..] + Physical(Pieces(rest));
    }
  }

  lemma FrontOfConcat(q: seq<string>, p: seq<string>)
    requires p != []
    ensures Front(q + p) == q + Front(p) && (|p| == 1 ==> Front(q + p) == q)
  {
  }

  lemma {:induction false} ReadRight(ls: seq<string>, items: seq<Item>) returns (after: seq<Item>)
    requires ls != [] && AreFile(ls, items)
    ensures AreFile(TrimLinesRight(ls), after) && SameSites(after, items)
    decreases |items|
  {
    hide Tight, Physical, Pieces, PiecesOf, SameSites, TrimRight, TrimLinesRight, Last, Front;
    var front, it := items[..|items| - 1], items[|items| - 1];
    assert front + [it] == items && it in items && forall x :: x in front ==> x in items;
    LastPart(front, it);
    TightHasLines(it);
    FilesHaveLines(front);
    TrimRightStep(ls);
    var p, q := Physical(PiecesOf(it)), Physical(Pieces(front));
    LastOfConcat(q, p);
    FrontOfConcat(q, p);
    var y := Last(p);
    if |ls| > 1 && TrimRight(y, IsSpace) == "" {
      SpacesOfTrimmed(y);
      BlankTail(it);
      after := ReadRight(q, front);
      FrontSame(front, it);
      SameTrans(after, front, items);
    } else {
      var c := TailTrimmed(it, y);
      after := front + [c];
      LastPart(front, c);
      ReplacedSame(c, it, front);
      assert q + Front(p) + [TrimRight(y, IsSpace)] == q + (Front(p) + [TrimRight(y, IsSpace)]);
    }
  }

  /** What a client reads of a file is a file of the same items, but for blank
      lines and white space at its ends. */
  lemma ReadFile(text: string, items: seq<Item>) returns (after: seq<Item>)
    requires IsFile(text, items)
    ensures IsFile(TrimSpace(text), after) && SameSites(after, items)
  {
    hide Tight, Physical, Pieces, SameSites, LinesOf, TrimLinesLeft, TrimLinesRight, Trim;
    SplitTrimSpace(text);
    var left := ReadLeft(LinesOf(text), items);
    after := ReadRight(TrimLinesLeft(LinesOf(text)), left);
    SameTrans(after, left, items);
  }
}
