/** Which Caddyfiles are made of managed regions and top-level blocks
    (internal/caddy/routes.go). */
module PlainFiles {
  import opened Wrappers
  import opened Lines
  import opened Text
  import opened TextLines
  import opened Regions
  import opened RegionLaws
  import opened RegionEdit
  import opened RouteLex
  import opened Routes
  import opened RoutePieces
  import opened RouteSpaces
  import opened RouteItems
  import opened Adoption
  import opened AdoptionExact
  import opened FileItems
  import opened FileEdits

  // ---- what is asked of the text ----

  /** The logical lines of the view, at depth d: a marker line stands at the top
      level; any other line is one the parser reads, opens no heredoc and holds no
      run of empty lines in a literal; and the braces balance. */
  ghost predicate TopLevel(ls: seq<string>, d: int)
    decreases |ls|
  {
    if ls == [] then d == 0
    else
      var l := ls[0];
      if MarkOf(l) != Plain then d == 0 && TopLevel(ls[1..], 0)
      else if d == 0 then
        var top := ReadTopLine(l, Code(l));
        && Clean(l) && !top.Refused?
        && TopLevel(ls[1..], if top.Skipped? then 0 else Net(l))
      else Clean(l) && d + Net(l) >= 0 && TopLevel(ls[1..], d + Net(l))
  }

  /** Nothing looks like a marker and is none. */
  ghost predicate NoLookalikes(ls: seq<string>) { forall l :: l in ls && MarkerPrefixed(l) ==> MarkOf(l) != Plain }

  /** A text without heredocs, with balanced top level, markers in order, and no
      run of empty lines in a literal. */
  ghost predicate PlainFile(ls: seq<string>) {
    && AreLines(ls) && WellFormed(ls) && NoLookalikes(ls)
    && TopLevel(LogicalLines(View(ls, false)), 0)
    && forall a :: a in RegionsOf(ls) ==> TightBody(RegionsOf(ls)[a])
  }

  // ---- into pieces ----

  /** The rest of a text to be cut into pieces, from a scan outside every region. */
  ghost predicate Cuttable(st: Scan, ls: seq<string>) {
    && st.Scan? && st.inside == None && ScanLines(st, ls).Scan? && ScanLines(st, ls).inside == None
    && NoLookalikes(ls) && (forall l :: l in ls ==> '\n' !in l)
    && (forall a :: a in ScanLines(st, ls).regions && a !in st.regions ==> TightBody(ScanLines(st, ls).regions[a]))
  }

  /** A scan that ends well takes a first line. */
  lemma StepsOn(st: Scan, ls: seq<string>)
    requires ScanLines(st, ls).Scan? && ls != []
    ensures ScanStep(st, ls[0]).Scan? && ScanLines(ScanStep(st, ls[0]), ls[1..]) == ScanLines(st, ls)
  {
    hide MarkOf;
    if ScanStep(st, ls[0]).Malformed? {
      MalformedStays(ls[1..]);
      assert false;
    }
  }

  /** Where an open region ends. */
  lemma {:induction false} EndOfRegion(st: Scan, ls: seq<string>, a: string) returns (n: nat)
    requires st.Scan? && st.inside == Some(a) && ScanLines(st, ls).Scan? && ScanLines(st, ls).inside == None
    ensures n < |ls| && MarkOf(ls[n]) == End(a) && NoMarkers(ls[..n])
    ensures ScanLines(st, ls[..n + 1]) == Scan(None, [], st.regions[a := st.body + ls[..n]], st.outside)
    decreases |ls|
  {
    hide MarkOf;
    StepsOn(st, ls);
    if MarkOf(ls[0]) == Plain {
      var m := EndOfRegion(ScanStep(st, ls[0]), ls[1..], a);
      n := m + 1;
      assert ls[..n] == [ls[0]] + ls[1..][..m];
      assert ls[..n + 1][1..] == ls[1..][..m + 1];
      assert st.body + [ls[0]] + ls[1..][..m] == st.body + ls[..n];
    } else {
      n := 0;
      assert ls[..1] == [ls[0]] && ls[..0] == [];
      ScanOne(st, ls[0]);
      assert st.body + [] == st.body;
    }
  }

  lemma NoLookalikesPlain(ls: seq<string>)
    requires NoLookalikes(ls) && NoMarkers(ls)
    ensures NoPrefixes(ls)
  {
    hide MarkOf, MarkerPrefixed;
  }

  lemma MarkerLine(l: string)
    requires MarkOf(l) != Plain
    ensures !OddBackticks(l)
  {
    hide ValidName, TrimPrefix;
    TrimSpaceOfTrimSuffix(l);
    MarkerHasNoQuote(l);
    NoBackticks(l);
  }

  /** A marker is its prefix, a name, and white space. */
  lemma MarkerHasNoQuote(l: string)
    requires MarkOf(l) != Plain
    ensures '`' !in l
  {
    hide Trim;
    TrimSpaceOfTrimSuffix(l);
    var t := TrimSpace(l);
    var a, c := TrimParts(l, IsSpace);
    var prefix := if MarkOf(l).Begin? then BEGIN_PREFIX else END_PREFIX;
    var name := TrimPrefix(t, prefix);
    var b, d := TrimParts(name, IsSpace);
    assert t == prefix + name;
    assert l == a + (prefix + (b + TrimSpace(name) + d)) + c;
    assert '`' !in TrimSpace(name);
  }

  lemma ViewOfRegion(begin: string, body: seq<string>, end: string, rest: seq<string>)
    requires MarkOf(begin).Begin? && MarkOf(end).End? && NoPrefixes(body) && !OddBackticks(begin) && !OddBackticks(end)
    ensures LogicalLines(View([begin] + body + [end] + rest, false)) ==
      [begin] + Blanks(|body|) + [end] + LogicalLines(View(rest, false))
  {
    hide MarkOf, OddBackticks, LogicalFrom, View, NoPrefixes;
    MarkPrefixed(begin);
    MarkPrefixed(end);
    BeginCloses(begin, end);
    ViewRegionBody(begin, body, end, rest);
    Regroup([begin], body, [end], rest);
    BlanksMerge(|body|);
    Regroup([begin], Blanks(|body|), [end], View(rest, false));
    LogicalOne(end, View(rest, false));
    LogicalConcat(Blanks(|body|), [end] + View(rest, false), false, []);
    LogicalOne(begin, Blanks(|body|) + ([end] + View(rest, false)));
    Regroup([begin], Blanks(|body|), [end], LogicalLines(View(rest, false)));
  }

  /** The markers and the blank body of a region are passed at the top level. */
  lemma {:induction false} TopLevelBlanks(n: nat, rest: seq<string>)
    requires TopLevel(Blanks(n) + rest, 0)
    ensures TopLevel(rest, 0)
  {
    hide ReadTopLine, CodeLine, BraceNet;
    if n == 0 {
      assert Blanks(0) + rest == rest;
    } else {
      EmptyIsSkipped();
      EmptyIsPlain();
      assert Blanks(n) + rest == [""] + (Blanks(n - 1) + rest);
      assert (Blanks(n) + rest)[1..] == Blanks(n - 1) + rest;
      TopLevelBlanks(n - 1, rest);
    }
  }

  lemma TopLevelMark(l: string, rest: seq<string>)
    requires TopLevel([l] + rest, 0) && MarkOf(l) != Plain
    ensures TopLevel(rest, 0)
  {
    hide MarkOf;
    assert ([l] + rest)[1..] == rest;
  }

  lemma TopLevelRegion(begin: string, n: nat, end: string, rest: seq<string>)
    requires TopLevel([begin] + Blanks(n) + [end] + rest, 0) && MarkOf(begin) != Plain && MarkOf(end) != Plain
    ensures TopLevel(rest, 0)
  {
    hide MarkOf, TopLevel;
    Regroup([begin], Blanks(n), [end], rest);
    TopLevelMark(begin, Blanks(n) + ([end] + rest));
    TopLevelBlanks(n, [end] + rest);
    TopLevelMark(end, rest);
  }

  // ---- a logical line of the view is one of the text ----

  lemma ViewKeepsCount(ls: seq<string>)
    requires forall l :: l in ls ==> '\n' !in l
    ensures |View(ls, false)| == |ls| && forall l :: l in View(ls, false) ==> '\n' !in l
  {
    ViewAreLines(ls, false);
  }

  /** Outside a region, lines without markers are seen as they are. */
  lemma {:induction false} SeenAsIs(ls: seq<string>, k: nat)
    requires k <= |ls| == |View(ls, false)| && NoPrefixes(View(ls, false)[..k])
    ensures View(ls, false)[..k] == ls[..k] && View(ls, false)[k..] == View(ls[k..], false)
    decreases k
  {
    hide Trim, View;
    ViewStep(ls);
    if k == 0 {
      assert ls[0..] == ls;
    } else {
      var v := View(ls, false);
      assert v[0] in v[..k];
      assert v[1..] == View(ls[1..], false);
      forall l | l in View(ls[1..], false)[..k - 1] ensures !MarkerPrefixed(l) {
        assert l in v[..k];
      }
      SeenAsIs(ls[1..], k - 1);
      assert v[..k] == [v[0]] + v[1..][..k - 1] && ls[..k] == [ls[0]] + ls[1..][..k - 1];
      assert v[k..] == v[1..][k - 1..] && ls[k..] == ls[1..][k - 1..];
    }
  }

  /** One step of the view; a line shown without a marker was one without. */
  lemma ViewStep(ls: seq<string>)
    ensures ls != [] ==> var v := View(ls, false);
      v != [] && (!MarkerPrefixed(v[0]) ==> v[0] == ls[0] && v[1..] == View(ls[1..], false))
    ensures View([], false) == []
  {
    hide Trim;
    if ls != [] {
      var v := View(ls, false);
      assert v[0] == ls[0];
    }
  }

  lemma FirstLogical(ls: seq<string>) returns (k: nat)
    requires ls != [] && (forall l :: l in ls ==> '\n' !in l) && LogicalLines(View(ls, false)) != []
    requires FreeLine(LogicalLines(View(ls, false))[0])
    ensures 0 < k <= |ls| && ls[..k] == LinesOf(LogicalLines(View(ls, false))[0])
    ensures LogicalLines(View(ls[k..], false)) == LogicalLines(View(ls, false))[1..]
  {
    hide LogicalFrom, View, OddBackticks, MarkerPrefixed, LinesOf;
    var v := View(ls, false);
    var w := LogicalLines(v);
    ViewKeepsCount(ls);
    LogicalPhysical(v, false, []);
    assert [] + v == v;
    var l := w[0];
    assert w == [l] + w[1..];
    FirstFree(l, w[1..]);
    FreeIsUnit(l);
    LinesOfText(l);
    k := |LinesOf(l)|;
    var rest := Physical(Frees(w[1..]));
    assert v == LinesOf(l) + rest;
    assert v[..k] == LinesOf(l) && v[k..] == rest;
    SeenAsIs(ls, k);
    UnitMerges(l, rest);
    assert ([l] + LogicalLines(rest))[1..] == LogicalLines(rest);
  }

  // ---- into items ----

  /** Lines at the top level, in the items they make. */
  ghost predicate ItemsOf(ls: seq<string>, items: seq<Item>) { AllTight(items) && Physical(Pieces(items)) == ls }

  lemma ItemsMore(it: Item, p: seq<string>, rest: seq<string>, items: seq<Item>)
    requires Tight(it) && Physical(PiecesOf(it)) == p && ItemsOf(rest, items)
    ensures ItemsOf(p + rest, [it] + items)
  {
    hide Tight, Physical, PiecesOf;
    assert ([it] + items)[1..] == items;
    ViewedConcat(PiecesOf(it), Pieces(items));
  }

  lemma CutLater(st: Scan, ls: seq<string>, k: nat)
    requires Cuttable(st, ls) && k <= |ls| && ScanLines(st, ls[..k]).Scan? && ScanLines(st, ls[..k]).inside == None
    requires forall a :: a in st.regions ==> a in ScanLines(st, ls[..k]).regions
    ensures Cuttable(ScanLines(st, ls[..k]), ls[k..])
  {
    hide MarkOf, ScanLines, TightBody, MarkerPrefixed;
    ScanConcat(st, ls[..k], ls[k..]);
    assert ls[..k] + ls[k..] == ls;
    assert forall l :: l in ls[k..] ==> l in ls;
  }

  /** The lines of an open block up to the one that closes it. */
  lemma {:induction false} TakeBlock(st: Scan, ls: seq<string>, d: int) returns (k: nat, w: seq<string>)
    requires Cuttable(st, ls) && d > 0 && TopLevel(LogicalLines(View(ls, false)), d)
    ensures k <= |ls| && ls[..k] == Physical(Frees(w)) && AllClean(w) && Closes(w, d)
    ensures TopLevel(LogicalLines(View(ls[k..], false)), 0)
    ensures ScanLines(st, ls[..k]).Scan? && ScanLines(st, ls[..k]).inside == None &&
      ScanLines(st, ls[..k]).regions == st.regions
    decreases |ls|
  {
    hide MarkOf, ScanLines, View, LogicalFrom, LinesOf, FreeLine, Physical, Frees, Clean, Cuttable, TightBody;
    LinesLeft(st, ls, d);
    var all := LogicalLines(View(ls, false));
    var l := all[0];
    assert all == [l] + all[1..];
    CleanReads(l);
    var n := FirstLogical(ls);
    OutsideLines(st, ls, n, l);
    CutLater(st, ls, n);
    var st2, now := ScanLines(st, ls[..n]), d + Net(l);
    if now == 0 {
      k, w := n, [l];
      OneFreeLine(l);
      OneClean(l, d);
    } else {
      var m, more := TakeBlock(st2, ls[n..], now);
      k, w := n + m, [l] + more;
      FirstFree(l, more);
      SlicesMeet(ls, n, m);
      ScanConcat(st, ls[..n], ls[n..][..m]);
      MoreClean(l, more, d);
    }
  }

  lemma SlicesMeet(ls: seq<string>, n: nat, m: nat)
    requires n + m <= |ls|
    ensures ls[..n + m] == ls[..n] + ls[n..][..m] && ls[n + m..] == ls[n..][m..]
  {
  }

  lemma OneClean(l: string, d: int)
    requires Clean(l) && d > 0 && d + Net(l) == 0
    ensures AllClean([l]) && Closes([l], d)
  {
    hide Clean, Net;
    assert [l][1..] == [];
  }

  lemma MoreClean(l: string, more: seq<string>, d: int)
    requires Clean(l) && AllClean(more) && d > 0 && Closes(more, d + Net(l))
    ensures AllClean([l] + more) && Closes([l] + more, d)
  {
    hide Clean, Net;
    assert ([l] + more)[1..] == more;
  }

  /** An open block has a line to read. */
  lemma LinesLeft(st: Scan, ls: seq<string>, d: int)
    requires Cuttable(st, ls) && d > 0 && TopLevel(LogicalLines(View(ls, false)), d)
    ensures var all := LogicalLines(View(ls, false));
      ls != [] && all != [] && Clean(all[0]) && d + Net(all[0]) >= 0 && TopLevel(all[1..], d + Net(all[0]))
    ensures forall l :: l in ls ==> '\n' !in l
  {
    hide MarkOf, LogicalFrom, Clean, ScanLines, TightBody, MarkerPrefixed;
    if ls == [] {
      assert View([], false) == [];
      NothingMerges();
    }
  }

  /** Plain lines leave the scan outside, with the regions it had. */
  lemma OutsideLines(st: Scan, ls: seq<string>, n: nat, l: string)
    requires Cuttable(st, ls) && n <= |ls| && ls[..n] == LinesOf(l) && FreeLine(l)
    ensures var st2 := ScanLines(st, ls[..n]); st2.Scan? && st2.inside == None && st2.regions == st.regions
  {
    hide MarkOf, ScanLines, LinesOf, MarkerPrefixed, OddBackticks;
    FreeIsUnit(l);
    PlainLines(LinesOf(l));
    ScanPlain(st, ls[..n]);
  }

  lemma TopStep(all: seq<string>)
    requires all != [] && TopLevel(all, 0)
    ensures var l := all[0];
      var top := ReadTopLine(l, Code(l));
      MarkOf(l) == Plain ==> Clean(l) && !top.Refused? && TopLevel(all[1..], if top.Skipped? then 0 else Net(l))
  {
  }

  lemma {:induction false} CutItems(st: Scan, ls: seq<string>) returns (items: seq<Item>)
    requires Cuttable(st, ls) && TopLevel(LogicalLines(View(ls, false)), 0)
    ensures ItemsOf(ls, items)
    decreases |ls|, 1
  {
    hide MarkOf, ScanLines, View, LogicalFrom, LinesOf, FreeLine, Physical, Clean, Cuttable, TightBody, ReadTopLine,
      BraceNet, CodeLine, TopLevel, Closes;
    if ls == [] {
      items := [];
      NothingHere();
    } else if MarkOf(ls[0]) != Plain {
      items := CutRegion(st, ls);
    } else {
      FirstIsFree(st, ls);
      var all := LogicalLines(View(ls, false));
      var l := all[0];
      TopStep(all);
      CleanReads(l);
      var n := FirstLogical(ls);
      OutsideLines(st, ls, n, l);
      CutLater(st, ls, n);
      assert ls == ls[..n] + ls[n..];
      var st2, top := ScanLines(st, ls[..n]), ReadTopLine(l, Code(l));
      if top.Skipped? {
        var more := CutItems(st2, ls[n..]);
        PhysicalOne(Loose(l));
        ItemsMore(Loose(l), ls[..n], ls[n..], more);
        items := [Loose(l)] + more;
      } else {
        items := CutBlock(st2, ls[..n], ls[n..], l);
      }
    }
  }

  /** A block, from its opening line. */
  lemma CutBlock(st: Scan, head: seq<string>, ls: seq<string>, l: string) returns (items: seq<Item>)
    requires Cuttable(st, ls) && Clean(l) && head == LinesOf(l) && TopLevel(LogicalLines(View(ls, false)), Net(l))
    requires var top := ReadTopLine(l, Code(l)); top.Opaque? || top.Opening?
    ensures ItemsOf(head + ls, items)
    decreases |ls|, 2
  {
    hide MarkOf, ScanLines, View, LogicalFrom, LinesOf, FreeLine, Physical, Clean, Cuttable, TightBody, BraceNet,
      CodeLine, TopLevel, Closes, Frees, ReadTopLine;
    OpaqueIsCalm(l);
    var k, w := 0, [];
    var st2 := st;
    if Net(l) > 0 {
      k, w := TakeBlock(st, ls, Net(l));
      CutLater(st, ls, k);
      st2 := ScanLines(st, ls[..k]);
    } else {
      NothingFree();
      NothingCloses();
      assert ls[0..] == ls && ls[..0] == [];
    }
    var it := if ReadTopLine(l, Code(l)).Opaque? then Options([l] + w) else Site([l] + w);
    BlockIsTight(l, w);
    FirstFree(l, w);
    PhysicalOne(it);
    var more := CutItems(st2, ls[k..]);
    ItemsMore(it, head + ls[..k], ls[k..], more);
    items := [it] + more;
    assert head + ls == head + ls[..k] + ls[k..];
  }

  lemma NothingCloses()
    ensures Closes([], 0)
  {
  }

  lemma OpaqueIsCalm(l: string)
    requires Clean(l)
    ensures ReadTopLine(l, Code(l)).Opaque? ==> Net(l) >= 0
    ensures ReadTopLine(l, Code(l)).Opening? ==> Net(l) > 0
  {
    hide FreeLine, HeredocTerminator, BraceNet, CodeLine, TrimSpace, ImportLike, SplitAddressLine;
  }

  lemma BlockIsTight(l: string, w: seq<string>)
    requires Clean(l) && AllClean(w) && Closes(w, Net(l))
    ensures ReadTopLine(l, Code(l)).Opaque? ==> Tight(Options([l] + w))
    ensures ReadTopLine(l, Code(l)).Opening? ==> Tight(Site([l] + w))
  {
    hide Clean, Closes, Net, ReadTopLine, CodeLine;
    assert ([l] + w)[1..] == w;
  }

  /** A text that starts with no marker starts with a logical line of its own. */
  lemma FirstIsFree(st: Scan, ls: seq<string>)
    requires Cuttable(st, ls) && ls != [] && MarkOf(ls[0]) == Plain && TopLevel(LogicalLines(View(ls, false)), 0)
    ensures var all := LogicalLines(View(ls, false)); all != [] && MarkOf(all[0]) == Plain
    ensures forall l :: l in ls ==> '\n' !in l
  {
    hide MarkOf, ScanLines, TightBody, MarkerPrefixed, TopLevel, OddBackticks, LinesOf, View, LogicalFrom;
    var v := View(ls, false);
    ViewKeepsCount(ls);
    var all := LogicalLines(v);
    LogicalFromEmpty(v, false, []);
    FirstSeen(ls);
    if MarkOf(all[0]) != Plain {
      LogicalPhysical(v, false, []);
      assert [] + v == v;
      assert all == [all[0]] + all[1..];
      FirstFree(all[0], all[1..]);
      LogicalHasNoNewline(v, all[0]);
    }
  }

  /** A marker line among the logical lines is a line of the view. */
  lemma LogicalHasNoNewline(v: seq<string>, l: string)
    requires v != [] && (forall x :: x in v ==> '\n' !in x) && LogicalLines(v) != [] && l == LogicalLines(v)[0] &&
      MarkOf(l) != Plain
    ensures v[0] == l
  {
    hide MarkOf, LogicalFrom, LinesOf;
    MarkerHasNoQuote(l);
    LogicalPhysical(v, false, []);
    assert [] + v == v;
    var all := LogicalLines(v);
    assert all == [l] + all[1..];
    FirstFree(l, all[1..]);
    FirstLineStarts(l);
    if OddBackticks(v[0]) {
      OddHasQuote(v[0]);
    } else {
      assert v == [v[0]] + v[1..];
      LogicalOne(v[0], v[1..]);
    }
  }

  lemma OddHasQuote(x: string)
    requires OddBackticks(x)
    ensures '`' in x
  {
    if '`' !in x {
      NoBackticks(x);
    }
  }

  lemma FirstSeen(ls: seq<string>)
    requires ls != []
    ensures View(ls, false) != [] && View(ls, false)[0] == ls[0]
  {
  }

  /** A marker met outside every region opens a new one, which ends. */
  lemma RegionAhead(st: Scan, ls: seq<string>) returns (a: string, n: nat)
    requires st.Scan? && st.inside == None && ScanLines(st, ls).Scan? && ScanLines(st, ls).inside == None
    requires ls != [] && MarkOf(ls[0]) != Plain
    ensures n + 1 < |ls| && MarkOf(ls[0]) == Begin(a) && MarkOf(ls[n + 1]) == End(a) && NoMarkers(ls[1..n + 1])
    ensures a !in st.regions
    ensures ScanLines(st, ls[..n + 2]) == Scan(None, [], st.regions[a := ls[1..n + 1]], st.outside)
  {
    hide MarkOf;
    StepsOn(st, ls);
    var rest := ls[1..];
    a := MarkOf(ls[0]).app;
    n := EndOfRegion(ScanStep(st, ls[0]), rest, a);
    assert rest[..n] == ls[1..n + 1] && ls[..n + 2] == [ls[0]] + rest[..n + 1];
    ScanConcat(st, [ls[0]], rest[..n + 1]);
    ScanOne(st, ls[0]);
    assert [] + rest[..n] == rest[..n];
  }

  lemma CutRegion(st: Scan, ls: seq<string>) returns (items: seq<Item>)
    requires Cuttable(st, ls) && ls != [] && MarkOf(ls[0]) != Plain && TopLevel(LogicalLines(View(ls, false)), 0)
    ensures ItemsOf(ls, items)
    decreases |ls|, 0
  {
    hide MarkOf, View, LogicalFrom, LinesOf, FreeLine, Physical, TightBody, TopLevel, OddBackticks, ScanLines,
      MarkerPrefixed, ItemsOf, Tight;
    var a, n := RegionAhead(st, ls);
    var begin, body, end, later := ls[0], ls[1..n + 1], ls[n + 1], ls[n + 2..];
    assert ls == [begin] + body + [end] + later && ls[..n + 2] == [begin] + body + [end];
    CutLater(st, ls, n + 2);
    PlainBody(st, ls, n);
    MarkerLine(begin);
    MarkerLine(end);
    ViewOfRegion(begin, body, end, later);
    TopLevelRegion(begin, |body|, end, LogicalLines(View(later, false)));
    var more := CutItems(ScanLines(st, ls[..n + 2]), later);
    RegionIsTight(st, ls, n + 2, a, body);
    var it := Managed(Region(a, begin, body, end));
    TightRegion(a, begin, body, end);
    PhysicalOne(it);
    ItemsMore(it, [begin] + body + [end], later, more);
    items := [it] + more;
  }

  lemma PlainBody(st: Scan, ls: seq<string>, n: nat)
    requires Cuttable(st, ls) && n + 1 < |ls| && NoMarkers(ls[1..n + 1])
    ensures NoPrefixes(ls[1..n + 1])
  {
    hide MarkOf, MarkerPrefixed, ScanLines, TightBody;
    assert forall l :: l in ls[1..n + 1] ==> l in ls;
    NoLookalikesPlain(ls[1..n + 1]);
  }

  lemma RegionIsTight(st: Scan, ls: seq<string>, k: nat, a: string, body: seq<string>)
    requires Cuttable(st, ls) && k <= |ls| && a !in st.regions
    requires var st2 := ScanLines(st, ls[..k]);
      st2.Scan? && st2.inside == None && a in st2.regions && st2.regions[a] == body
    ensures TightBody(body)
  {
    hide MarkOf, ScanLines, TightBody, MarkerPrefixed;
    ScanConcat(st, ls[..k], ls[k..]);
    assert ls[..k] + ls[k..] == ls;
    RegionsStay(ScanLines(st, ls[..k]), ls[k..], a);
  }

  /** Every plain file is a file of regions and top-level blocks. */
  lemma PlainFilesAreFiles(ls: seq<string>) returns (items: seq<Item>)
    requires PlainFile(ls)
    ensures AreFile(ls, items)
  {
    hide MarkOf, View, LogicalFrom, TightBody, TopLevel, MarkerPrefixed, Physical, Tight;
    assert Cuttable(START, ls) by {
      assert RegionsOf(ls) == ScanLines(START, ls).regions;
    }
    items := CutItems(START, ls);
    FilesHaveLines(items);
  }

  // ---- and back ----

  /** A line of someone else's is no marker, even if it spans several. */
  lemma FreeIsUnmarked(l: string)
    requires FreeLine(l)
    ensures MarkOf(l) == Plain
  {
    hide MarkOf, OddBackticks, MarkerPrefixed, LinesOf, Squeeze;
    LinesOfText(l);
    if MarkOf(l) != Plain {
      MarkerHasNoQuote(l);
      FirstLineStarts(l);
      var first := LinesOf(l)[0];
      assert '`' !in first;
      NoBackticks(first);
      assert |LinesOf(l)| == 1;
      UnlinesOne(first);
      assert LinesOf(l) == [first];
      MarkPrefixed(l);
    }
  }

  lemma {:induction false} ClosingIsTopLevel(w: seq<string>, d: int, rest: seq<string>)
    requires AllClean(w) && Closes(w, d) && TopLevel(rest, 0)
    ensures TopLevel(w + rest, d)
    decreases |w|
  {
    hide MarkOf, FreeLine, CodeLine, BraceNet, ReadTopLine, HeredocTerminator;
    if w == [] {
      assert w + rest == rest;
    } else {
      assert w[0] in w && forall l :: l in w[1..] ==> l in w;
      assert (w + rest)[1..] == w[1..] + rest;
      FreeIsUnmarked(w[0]);
      ClosingIsTopLevel(w[1..], d + Net(w[0]), rest);
    }
  }

  lemma HeadIsTopLevel(l: string, rest: seq<string>)
    requires Clean(l) && !ReadTopLine(l, Code(l)).Refused?
    requires TopLevel(rest, if ReadTopLine(l, Code(l)).Skipped? then 0 else Net(l))
    ensures TopLevel([l] + rest, 0)
  {
    hide MarkOf, FreeLine, CodeLine, BraceNet, ReadTopLine, HeredocTerminator;
    FreeIsUnmarked(l);
    assert ([l] + rest)[1..] == rest;
  }

  lemma EmptyLineIsClean()
    ensures Clean("") && ReadTopLine("", Code("")).Skipped?
  {
    EmptyIsSkipped();
    assert GoodItem(Loose("")) by { EmptyLineIsTight(); }
  }

  lemma {:induction false} BlanksAreTopLevel(n: nat, rest: seq<string>)
    requires TopLevel(rest, 0)
    ensures TopLevel(Blanks(n) + rest, 0)
  {
    hide TopLevel;
    if n == 0 {
      assert Blanks(0) + rest == rest;
    } else {
      EmptyLineIsClean();
      BlanksAreTopLevel(n - 1, rest);
      HeadIsTopLevel("", Blanks(n - 1) + rest);
      assert Blanks(n) + rest == [""] + (Blanks(n - 1) + rest);
    }
  }

  lemma MarkIsTopLevel(l: string, rest: seq<string>)
    requires MarkOf(l) != Plain && TopLevel(rest, 0)
    ensures TopLevel([l] + rest, 0)
  {
    hide MarkOf;
    assert ([l] + rest)[1..] == rest;
  }

  lemma RegionIsTopLevel(begin: string, n: nat, end: string, rest: seq<string>)
    requires MarkOf(begin) != Plain && MarkOf(end) != Plain && TopLevel(rest, 0)
    ensures TopLevel([begin] + Blanks(n) + [end] + rest, 0)
  {
    hide MarkOf, TopLevel;
    Regroup([begin], Blanks(n), [end], rest);
    MarkIsTopLevel(end, rest);
    BlanksAreTopLevel(n, [end] + rest);
    MarkIsTopLevel(begin, Blanks(n) + ([end] + rest));
  }

  lemma BlockIsTopLevel(ls: seq<string>, rest: seq<string>)
    requires ls != [] && AllClean(ls) && Closes(ls[1..], Net(ls[0])) && TopLevel(rest, 0)
    requires var top := ReadTopLine(ls[0], Code(ls[0])); top.Opaque? || top.Opening?
    ensures TopLevel(ls + rest, 0)
  {
    hide Clean, CodeLine, BraceNet, ReadTopLine, TopLevel, Closes;
    assert ls[0] in ls && forall l :: l in ls[1..] ==> l in ls;
    ClosingIsTopLevel(ls[1..], Net(ls[0]), rest);
    HeadIsTopLevel(ls[0], ls[1..] + rest);
    assert ls + rest == [ls[0]] + (ls[1..] + rest);
  }

  lemma ItemIsTopLevel(it: Item, rest: seq<string>)
    requires Tight(it) && TopLevel(rest, 0)
    ensures TopLevel(Viewed(PiecesOf(it)) + rest, 0)
  {
    hide MarkOf, Clean, CodeLine, BraceNet, ReadTopLine, TopLevel, Closes, TightBody, LogicalLines, OddBackticks,
      AllClean;
    match it {
      case Managed(r) =>
        assert Viewed([r]) == ViewedOf(r) by { assert [r][1..] == []; }
        RegionIsTopLevel(r.begin, |r.body|, r.end, rest);
      case Loose(l) =>
        assert Viewed([Free(l)]) == [l] by { assert [Free(l)][1..] == []; }
        HeadIsTopLevel(l, rest);
      case _ =>
        ViewedFrees(it.lines);
        BlockIsTopLevel(it.lines, rest);
    }
  }

  lemma {:induction false} ItemsAreTopLevel(items: seq<Item>)
    requires AllTight(items)
    ensures TopLevel(Viewed(Pieces(items)), 0)
  {
    hide Tight, TopLevel, Viewed;
    if items == [] {
      NothingIsTopLevel();
    } else {
      assert items[0] in items && forall x :: x in items[1..] ==> x in items;
      ItemsAreTopLevel(items[1..]);
      ViewedConcat(PiecesOf(items[0]), Pieces(items[1..]));
      ItemIsTopLevel(items[0], Viewed(Pieces(items[1..])));
    }
  }

  lemma NothingIsTopLevel()
    ensures TopLevel(Viewed(Pieces([])), 0)
  {
  }

  lemma ItemHasNoLookalike(it: Item, l: string)
    requires Tight(it) && l in Physical(PiecesOf(it)) && MarkerPrefixed(l)
    ensures MarkOf(l) != Plain
  {
    hide MarkOf, MarkerPrefixed, Clean, OddBackticks, OpenAfter, LogicalFrom, Coded, Closes, ReadTopLine, LinesOf;
    PhysicalOne(it);
    match it {
      case Managed(r) => assert l in [r.begin] + r.body + [r.end];
      case Loose(x) => LooseIsFree(x);
      case _ =>
        assert AllFree(it.lines) by {
          forall x | x in it.lines ensures FreeLine(x) {
            CleanReads(x);
          }
        }
        FreeHasNoPrefix(it.lines, l);
    }
  }

  lemma {:induction false} FreeHasNoPrefix(w: seq<string>, l: string)
    requires AllFree(w) && l in Physical(Frees(w))
    ensures !MarkerPrefixed(l)
  {
    hide MarkerPrefixed, LinesOf, FreeLine, Physical, Frees;
    if w == [] {
      NothingFree();
    } else {
      assert w[0] in w && forall x :: x in w[1..] ==> x in w;
      assert w == [w[0]] + w[1..];
      FirstFree(w[0], w[1..]);
      FreeIsUnit(w[0]);
      if l !in LinesOf(w[0]) {
        FreeHasNoPrefix(w[1..], l);
      }
    }
  }

  lemma {:induction false} ItemsHaveNoLookalikes(items: seq<Item>)
    requires AllTight(items)
    ensures NoLookalikes(Physical(Pieces(items)))
  {
    hide Tight, Physical, PiecesOf, MarkOf, MarkerPrefixed;
    if items == [] {
      NothingHere();
    } else {
      assert items[0] in items && forall x :: x in items[1..] ==> x in items;
      ItemsHaveNoLookalikes(items[1..]);
      ViewedConcat(PiecesOf(items[0]), Pieces(items[1..]));
      forall l | l in Physical(PiecesOf(items[0])) && MarkerPrefixed(l) ensures MarkOf(l) != Plain {
        ItemHasNoLookalike(items[0], l);
      }
    }
  }

  lemma {:induction false} BodiesAreTight(items: seq<Item>, regions: map<string, seq<string>>)
    requires AllTight(items) && RegionMap(Pieces(items), regions).Some?
    requires forall a :: a in regions ==> TightBody(regions[a])
    ensures var r := RegionMap(Pieces(items), regions).value; forall a :: a in r ==> TightBody(r[a])
  {
    hide TightBody, GoodItem;
    if items != [] {
      assert items[0] in items && forall x :: x in items[1..] ==> x in items;
      RegionMapConcat(PiecesOf(items[0]), Pieces(items[1..]), regions);
      match items[0] {
        case Managed(r) => assert [r][1..] == [];
        case Loose(l) => assert [Free(l)][1..] == [];
        case _ => FreesHaveNoRegion(items[0].lines, regions);
      }
      BodiesAreTight(items[1..], RegionMap(PiecesOf(items[0]), regions).value);
    }
  }

  /** And every file of regions and blocks whose markers are in order is plain. */
  lemma FilesArePlain(ls: seq<string>, items: seq<Item>)
    requires AreFile(ls, items) && WellFormed(ls)
    ensures PlainFile(ls)
  {
    hide MarkOf, ScanLines, View, LogicalFrom, TightBody, TopLevel, MarkerPrefixed, Physical, Tight, Viewed;
    FilesHaveLines(items);
    ItemsHaveNoLookalikes(items);
    ItemsAreTopLevel(items);
    TightIsGood(items);
    PiecesAreGood(items);
    PhysicalViews(Pieces(items));
    ScanPieces(START, Pieces(items));
    BodiesAreTight(items, map[]);
  }

  /** The two ways of putting it are one. */
  lemma PlainFileIff(ls: seq<string>)
    ensures PlainFile(ls) <==> WellFormed(ls) && exists items :: AreFile(ls, items)
  {
    hide WellFormed, RegionsOf, AreFile, TopLevel, NoLookalikes, TightBody;
    if PlainFile(ls) {
      var items := PlainFilesAreFiles(ls);
    }
    if WellFormed(ls) && exists items :: AreFile(ls, items) {
      var items :| AreFile(ls, items);
      FilesArePlain(ls, items);
    }
  }

  /** What the text says of its foreign sites is what the items say. */
  lemma PlainFileSays(text: string, items: seq<Item>)
    requires IsFile(text, items)
    ensures ForeignSites(text) == Ok(SitesOf(items))
    ensures Opens(LogicalLines(LinesOf(text))) == FileOpens(items)
  {
    hide Tight, ForeignSites, LogicalFrom, LinesOf, FileOpens, Opens, SitesOf, Physical, Whole;
    TightIsGood(items);
    TextOfFile(text, items);
    ForeignOfFile(items);
    PiecesAreGood(items);
    PhysicalMerges(Pieces(items));
    FileOpensAre(items);
  }

  // ---- adopting from a plain file ----

  /** Every address of a foreign site is opened by one line of the text: its own. */
  ghost predicate OwnSites(text: string) {
    && ForeignSites(text).Ok?
    && forall b, a :: b in ForeignSites(text).value && a in b.addresses ==> Opens(LogicalLines(LinesOf(text)))[a] == 1
  }

  lemma OwnSitesIff(text: string, items: seq<Item>)
    requires IsFile(text, items)
    ensures OwnSites(text) <==> OwnAddresses(items)
  {
    hide IsFile, ForeignSites, LogicalFrom, LinesOf, FileOpens, Opens, SitesOf;
    PlainFileSays(text, items);
  }

  /** Adoption is exact on every plain file whose foreign sites have their addresses
      to themselves, if the ones it shortens are on plain address lines: every
      block is read back as it was meant, and the result is such a file again, of
      which no foreign site serves a requested host. */
  lemma PlainAdoption(text: string, hosts: seq<string>)
    requires PlainFile(LinesOf(text)) && OwnSites(text)
    requires forall b :: b in ForeignSites(text).value && Touched(b, hosts) ==> Plainly(b)
    ensures var r := AdoptForeign(text, hosts);
      && r.Ok? && SparesRegions(LinesOf(text), LinesOf(r.value))
      && SpokenResult(ForeignSites(r.value)) == Ok(SpokenAll(EditBlocks(ForeignSites(text).value, hosts)))
      && PlainFile(LinesOf(r.value)) && OwnSites(r.value)
      && forall b :: b in ForeignSites(r.value).value ==> !Touched(b, hosts)
  {
    hide WellFormed, RegionsOf, LinesOf, TopLevel, NoLookalikes, AreFile, SitesOf, ForeignSites, OwnAddresses,
      OwnSites, AdoptForeign, FileOpens, Shrunk, Plainly, Touched, SpokenAll, EditBlocks, FreeOf, PlainFile,
      UniqueAddressLines, Rewritable;
    var items := ItemsOfPlain(text);
    var after := AdoptFile(text, items, hosts);
    OwnBelow(after, items);
    ExactOnItems(text, items, hosts);
    var r := AdoptForeign(text, hosts).value;
    SparedIsWellFormed(text, r);
    FilesArePlain(LinesOf(r), after);
    PlainFileSays(r, after);
    OwnSitesIff(r, after);
    FreeIsUntouched(after, hosts);
  }

  lemma ItemsOfPlain(text: string) returns (items: seq<Item>)
    requires PlainFile(LinesOf(text)) && OwnSites(text)
    ensures WellFormed(LinesOf(text)) && IsFile(text, items) && OwnAddresses(items)
    ensures ForeignSites(text) == Ok(SitesOf(items))
  {
    hide WellFormed, RegionsOf, LinesOf, TopLevel, NoLookalikes, AreFile, SitesOf, ForeignSites, OwnAddresses,
      OwnSites;
    items := PlainFilesAreFiles(LinesOf(text));
    PlainFileSays(text, items);
    OwnSitesIff(text, items);
  }

  lemma ExactOnItems(text: string, items: seq<Item>, hosts: seq<string>)
    requires IsFile(text, items) && OwnAddresses(items)
    requires forall b :: b in SitesOf(items) && Touched(b, hosts) ==> Plainly(b)
    ensures AdoptForeign(text, hosts).Ok?
    ensures SpokenResult(ForeignSites(AdoptForeign(text, hosts).value)) ==
      Ok(SpokenAll(EditBlocks(SitesOf(items), hosts)))
  {
    hide Tight, SitesOf, ForeignSites, OwnAddresses, AdoptForeign, Plainly, Touched, SpokenAll, EditBlocks, EditOf,
      UniqueAddressLines, Rewritable, FileOf, LinesOf, Physical;
    TightIsGood(items);
    TextOfFile(text, items);
    OwnIsUnique(items, hosts);
    forall b | b in SitesOf(items) ensures Rewritable(b, hosts) {
      if Edited(b, hosts) {
        EditedIsTouched(b, hosts);
      }
      MayRewrite(b, hosts);
    }
    AdoptionIsExact(items, hosts);
  }

  lemma SparedIsWellFormed(before: string, after: string)
    requires WellFormed(LinesOf(before)) && SparesRegions(LinesOf(before), LinesOf(after))
    ensures WellFormed(LinesOf(after))
  {
    hide WellFormed, RegionsOf, LinesOf;
  }

  lemma FreeIsUntouched(items: seq<Item>, hosts: seq<string>)
    requires FreeOf(items, hosts)
    ensures forall b :: b in SitesOf(items) ==> !Touched(b, hosts)
  {
    hide AddressHost, SitesOf;
  }
}
