/** The structure of a Caddyfile, and what parsing and adopting do on it
    (internal/caddy/routes.go). */
module RouteItems {
  import opened Wrappers
  import opened Lines
  import opened Text
  import opened TextLines
  import opened Regions
  import opened RouteLex
  import opened Routes
  import opened RouteAddress
  import opened RoutePieces

  /** A managed region, a comment or empty line, an options or snippet block, or
      a site block. Lines are logical lines. */
  datatype Item = Managed(region: Piece) | Loose(line: string) | Options(lines: seq<string>) | Site(lines: seq<string>)

  function LinesOfItem(it: Item): seq<string> {
    match it
    case Managed(r) => if r.Region? then WholeOf(r) else []
    case Loose(l) => [l]
    case Options(ls) => ls
    case Site(ls) => ls
  }

  function Frees(ls: seq<string>): seq<Piece> {
    if ls == [] then [] else [Free(ls[0])] + Frees(ls[1..])
  }

  function PiecesOf(it: Item): seq<Piece> {
    match it
    case Managed(r) => [r]
    case Loose(l) => [Free(l)]
    case Options(ls) => Frees(ls)
    case Site(ls) => Frees(ls)
  }

  function Pieces(items: seq<Item>): seq<Piece> {
    if items == [] then [] else PiecesOf(items[0]) + Pieces(items[1..])
  }

  function Code(l: string): string { if CodeLine(l).Some? then CodeLine(l).value else "" }

  function Net(l: string): int { BraceNet(Code(l)) }

  predicate Coded(l: string) { CodeLine(l).Some? }

  /** A line that would open an options block or a snippet closes no more braces
      than it opens. */
  predicate Calm(l: string) { Coded(l) && ReadTopLine(l, Code(l)).Opaque? ==> Net(l) >= 0 }

  /** Someone else's line that the parser reads, and that opens no heredoc. */
  predicate Clean(l: string) { FreeLine(l) && Coded(l) && HeredocTerminator(Code(l)).None? && Calm(l) }

  /** d braces are open; the last of the lines closes the last of them. */
  predicate Closes(ls: seq<string>, d: int) {
    if ls == [] then d == 0 else d > 0 && Closes(ls[1..], d + Net(ls[0]))
  }

  predicate AllClean(ls: seq<string>) { forall l :: l in ls ==> Clean(l) }
  predicate AllCoded(ls: seq<string>) { forall l :: l in ls ==> Coded(l) }

  predicate GoodItem(it: Item) {
    match it
    case Managed(r) => r.Region? && GoodRegion(r) && AllCoded(LogicalLines(r.body))
    case Loose(l) => Clean(l) && ReadTopLine(l, Code(l)).Skipped?
    case Options(ls) => ls != [] && AllClean(ls) && ReadTopLine(ls[0], Code(ls[0])).Opaque? &&
      Closes(ls[1..], Net(ls[0]))
    case Site(ls) => ls != [] && AllClean(ls) && ReadTopLine(ls[0], Code(ls[0])).Opening? && Closes(ls[1..], Net(ls[0]))
  }

  predicate GoodItems(items: seq<Item>) { forall it :: it in items ==> GoodItem(it) }

  function BlockOf(ls: seq<string>): SiteBlock
    requires ls != []
  {
    var top := ReadTopLine(ls[0], Code(ls[0]));
    SiteBlock(if top.Opening? then top.block.addresses else [], ls)
  }

  function BlocksOf(it: Item): seq<SiteBlock> {
    if it.Site? && it.lines != [] then [BlockOf(it.lines)] else []
  }

  function SitesOf(items: seq<Item>): seq<SiteBlock> {
    if items == [] then [] else BlocksOf(items[0]) + SitesOf(items[1..])
  }

  // ---- parsing items ----

  lemma {:induction false} CommentCode(s: string)
    requires TrimSpace(s) != "" && TrimSpace(s)[0] == '#'
    ensures CodeLine(s).Some? && forall c :: c in CodeLine(s).value ==> IsSpace(c)
  {
    var a := LeftPart(s, IsSpace);
    var t := TrimLeft(s, IsSpace);
    assert t != "" && t[0] == TrimSpace(s)[0];
    BlankCode(a, t);
  }

  lemma {:induction false} BlankCode(a: string, t: string)
    requires t != "" && t[0] == '#' && forall c :: c in a ==> IsSpace(c)
    ensures CodeFrom(a + t, None) == Some(a)
  {
    if a == "" {
      assert a + t == t;
    } else {
      assert (a + t)[1..] == a[1..] + t && (a + t)[..1] == a[..1] && a[0] in a;
      assert a == a[..1] + a[1..];
      BlankCode(a[1..], t);
    }
  }

  lemma BlankLine(code: string)
    requires forall c :: c in code ==> IsSpace(c)
    ensures TrimSpace(code) == "" && HeredocTerminator(code).None?
  {
    assert code == code + "" + "";
    TrimOf(code, "", "", IsSpace);
    assert "" + code == code;
    TrimRightOf("", code, IsSpace);
  }

  /** A marker line is a comment to the parser. */
  lemma MarkerIsComment(l: string)
    requires MarkOf(l) != Plain
    ensures Coded(l) && HeredocTerminator(Code(l)).None? && ReadTopLine(l, Code(l)).Skipped? && TrimSpace(Code(l)) == ""
  {
    hide MarkOf;
    MarkSpeaks(l);
    CommentCode(l);
    BlankLine(Code(l));
  }

  lemma ParseSkipped(l: string, rest: seq<string>, cur: Option<SiteBlock>)
    requires Coded(l) && HeredocTerminator(Code(l)).None? && ReadTopLine(l, Code(l)).Skipped?
    ensures ParseFrom([l] + rest, 0, cur) == ParseFrom(rest, 0, cur)
  {
    assert ([l] + rest)[1..] == rest;
  }

  lemma EmptyIsSkipped()
    ensures Coded("") && HeredocTerminator(Code("")).None? && ReadTopLine("", Code("")).Skipped?
  {
    BlankLine("");
  }

  lemma {:induction false} ParseBlanks(n: nat, rest: seq<string>)
    ensures ParseFrom(Blanks(n) + rest, 0, None) == ParseFrom(rest, 0, None)
  {
    hide ParseFrom;
    if n == 0 {
      assert Blanks(0) + rest == rest;
    } else {
      ParseBlanks(n - 1, rest);
      EmptyIsSkipped();
      ParseSkipped("", Blanks(n - 1) + rest, None);
      assert Blanks(n) + rest == [""] + (Blanks(n - 1) + rest);
    }
  }

  function AddLines(cur: Option<SiteBlock>, ls: seq<string>): seq<SiteBlock> {
    if cur.Some? then [SiteBlock(cur.value.addresses, cur.value.lines + ls)] else []
  }

  lemma ParseInside(l: string, rest: seq<string>, d: int, cur: Option<SiteBlock>)
    requires d > 0 && Coded(l) && HeredocTerminator(Code(l)).None? && d + Net(l) >= 0
    ensures ParseFrom([l] + rest, d, cur) ==
      if d + Net(l) == 0 then ConsBlocks(AddLines(cur, [l]), ParseFrom(rest, 0, None))
      else ParseFrom(rest, d + Net(l), AddLine(cur, l))
  {
    hide HeredocTerminator, BraceNet, CodeLine;
    assert ([l] + rest)[1..] == rest;
  }

  lemma ClosesMore(ls: seq<string>, d: int)
    requires ls != [] && Closes(ls, d)
    ensures d > 0 && d + Net(ls[0]) >= 0 && Closes(ls[1..], d + Net(ls[0]))
    ensures d + Net(ls[0]) == 0 <==> ls[1..] == []
  {
    hide BraceNet, CodeLine;
  }

  /** A block's lines up to the one that closes it. */
  lemma {:induction false} ParseBody(ls: seq<string>, d: int, cur: Option<SiteBlock>, rest: seq<string>)
    requires d > 0 && AllClean(ls) && Closes(ls, d)
    ensures ParseFrom(ls + rest, d, cur) == ConsBlocks(AddLines(cur, ls), ParseFrom(rest, 0, None))
    decreases |ls|
  {
    hide Clean, HeredocTerminator, BraceNet, CodeLine, ParseFrom, Net, ConsBlocks;
    var l, more := ls[0], ls[1..];
    assert l in ls && forall x :: x in more ==> x in ls;
    CleanReads(l);
    ClosesMore(ls, d);
    assert ls + rest == [l] + (more + rest) && [l] + more == ls;
    ParseInside(l, more + rest, d, cur);
    if more == [] {
      assert more + rest == rest && [l] == ls;
    } else {
      assert d + Net(l) != 0;
      ParseBody(more, d + Net(l), AddLine(cur, l), rest);
      if cur.Some? {
        assert cur.value.lines + [l] + more == cur.value.lines + ls;
      }
      assert AddLines(AddLine(cur, l), more) == AddLines(cur, ls);
    }
  }

  lemma CleanReads(l: string)
    requires Clean(l)
    ensures CodeLine(l) == Some(Code(l)) && HeredocTerminator(Code(l)).None? && FreeLine(l)
  {
  }

  lemma {:induction false} ViewedFrees(ls: seq<string>)
    ensures Viewed(Frees(ls)) == ls && Whole(Frees(ls)) == ls
  {
    if ls != [] {
      ViewedFrees(ls[1..]);
      assert ls == [ls[0]] + ls[1..];
    }
  }

  lemma {:induction false} ViewedConcat(a: seq<Piece>, b: seq<Piece>)
    ensures Viewed(a + b) == Viewed(a) + Viewed(b) && Whole(a + b) == Whole(a) + Whole(b)
    ensures Physical(a + b) == Physical(a) + Physical(b)
  {
    hide Physical, Viewed, Whole;
    if a == [] {
      assert a + b == b;
      NoPieces();
    } else {
      assert a + b == [a[0]] + (a[1..] + b) && a == [a[0]] + a[1..];
      ViewedConcat(a[1..], b);
      FirstPiece(a[0], a[1..] + b);
      FirstPiece(a[0], a[1..]);
    }
  }

  lemma NoPieces()
    ensures Viewed([]) == [] && Whole([]) == [] && Physical([]) == []
  {
  }

  lemma FirstPiece(p: Piece, rest: seq<Piece>)
    ensures Viewed([p] + rest) == ViewedOf(p) + Viewed(rest) && Whole([p] + rest) == WholeOf(p) + Whole(rest)
    ensures Physical([p] + rest) == PhysicalOf(p) + Physical(rest)
  {
    hide PhysicalOf, ViewedOf, WholeOf;
    assert ([p] + rest)[1..] == rest;
  }

  lemma OnePiece(p: Piece)
    ensures Viewed([p]) == ViewedOf(p) && Whole([p]) == WholeOf(p)
  {
    assert [p][1..] == [];
  }

  lemma ParseTop(l: string, rest: seq<string>)
    requires Coded(l) && HeredocTerminator(Code(l)).None?
    requires ReadTopLine(l, Code(l)).Opaque? || ReadTopLine(l, Code(l)).Opening?
    ensures var top := ReadTopLine(l, Code(l));
      ParseFrom([l] + rest, 0, None) == ParseFrom(rest, Net(l), if top.Opening? then Some(top.block) else None)
    ensures ReadTopLine(l, Code(l)).Opening? ==> Net(l) > 0 && ReadTopLine(l, Code(l)).block.lines == [l]
  {
    hide HeredocTerminator, BraceNet, CodeLine, TrimSpace, ImportLike, SplitAddressLine;
    assert ([l] + rest)[1..] == rest;
  }

  lemma ParseOpening(ls: seq<string>, rest: seq<string>)
    requires GoodItem(Site(ls)) || GoodItem(Options(ls))
    ensures ParseFrom(ls + rest, 0, None) ==
      ConsBlocks(if ReadTopLine(ls[0], Code(ls[0])).Opening? then [BlockOf(ls)] else [], ParseFrom(rest, 0, None))
  {
    hide Clean, BraceNet, CodeLine, ReadTopLine, HeredocTerminator, ParseFrom, Net;
    var l, more := ls[0], ls[1..];
    assert l in ls && forall x :: x in more ==> x in ls;
    CleanReads(l);
    ParseTop(l, more + rest);
    assert ls + rest == [l] + (more + rest) && [l] + more == ls;
    NoBlocksYet(ParseFrom(rest, 0, None));
    if more == [] {
      assert more + rest == rest;
    } else {
      var top := ReadTopLine(l, Code(l));
      ClosesMore(more, Net(l));
      ParseBody(more, Net(l), if top.Opening? then Some(top.block) else None, rest);
    }
  }

  lemma OneFree(l: string)
    ensures Viewed([Free(l)]) == [l]
  {
    OnePiece(Free(l));
  }

  lemma ParseManaged(r: Piece, rest: seq<string>)
    requires r.Region? && MarkOf(r.begin) != Plain && MarkOf(r.end) != Plain
    ensures ParseFrom(ViewedOf(r) + rest, 0, None) == ParseFrom(rest, 0, None)
  {
    hide ParseFrom, MarkOf, ReadTopLine, HeredocTerminator, CodeLine, TrimSpace, Blanks;
    MarkerIsComment(r.begin);
    MarkerIsComment(r.end);
    ParseSkipped(r.begin, Blanks(|r.body|) + ([r.end] + rest), None);
    ParseBlanks(|r.body|, [r.end] + rest);
    ParseSkipped(r.end, rest, None);
    Regroup([r.begin], Blanks(|r.body|), [r.end], rest);
  }

  lemma ParseItem(it: Item, rest: seq<string>)
    requires GoodItem(it)
    ensures ParseFrom(Viewed(PiecesOf(it)) + rest, 0, None) == ConsBlocks(BlocksOf(it), ParseFrom(rest, 0, None))
  {
    hide ParseFrom, MarkOf, Viewed, ReadTopLine, HeredocTerminator, CodeLine, FreeLine, Closes, LogicalLines,
      OddBackticks, OpenAfter, NoPrefixes, ViewedOf;
    NoBlocksYet(ParseFrom(rest, 0, None));
    match it {
      case Managed(r) =>
        OnePiece(r);
        ParseManaged(r, rest);
      case Loose(l) =>
        OneFree(l);
        ParseSkipped(l, rest, None);
      case Options(ls) =>
        ViewedFrees(ls);
        ParseOpening(ls, rest);
      case Site(ls) =>
        ViewedFrees(ls);
        ParseOpening(ls, rest);
    }
  }

  /** Parsing the view of a file yields its site blocks, in order. */
  lemma {:induction false} ParseItems(items: seq<Item>)
    requires GoodItems(items)
    ensures ParseFrom(Viewed(Pieces(items)), 0, None) == Ok(SitesOf(items))
  {
    hide GoodItem, PiecesOf, Viewed;
    if items == [] {
      assert Viewed([]) == [] by { NothingIsViewed(); }
    } else {
      assert items[0] in items && forall it :: it in items[1..] ==> it in items;
      ParseItems(items[1..]);
      ViewedConcat(PiecesOf(items[0]), Pieces(items[1..]));
      ParseItem(items[0], Viewed(Pieces(items[1..])));
    }
  }

  lemma NothingIsViewed()
    ensures Viewed([]) == []
  {
  }

  // ---- parsing does not depend on empty lines ----

  function Spoken(b: SiteBlock): SiteBlock { SiteBlock(b.addresses, NonEmpty(b.lines)) }

  function SpokenAll(bs: seq<SiteBlock>): seq<SiteBlock> {
    if bs == [] then [] else [Spoken(bs[0])] + SpokenAll(bs[1..])
  }

  function SpokenResult(r: Result<seq<SiteBlock>, RouteError>): Result<seq<SiteBlock>, RouteError> {
    if r.Ok? then Ok(SpokenAll(r.value)) else r
  }

  function SpokenCur(cur: Option<SiteBlock>): Option<SiteBlock> {
    if cur.Some? then Some(Spoken(cur.value)) else None
  }

  lemma NonEmptyCons(l: string, rest: seq<string>)
    ensures NonEmpty([l] + rest) == if l == "" then NonEmpty(rest) else [l] + NonEmpty(rest)
  {
    NonEmptyConcat([l], rest);
    NonEmptyOne(l);
  }

  lemma {:induction false} AfterTerminatorNonEmpty(ls: seq<string>, term: string)
    requires term != ""
    ensures AfterTerminator(NonEmpty(ls), term) == NonEmpty(AfterTerminator(ls, term))
  {
    hide TrimSpace, NonEmpty;
    if ls == [] {
      NothingSpoken();
    } else {
      AfterTerminatorNonEmpty(ls[1..], term);
      assert ls == [ls[0]] + ls[1..];
      NonEmptyCons(ls[0], ls[1..]);
      EmptyTrims();
      assert ([ls[0]] + NonEmpty(ls[1..]))[1..] == NonEmpty(ls[1..]);
    }
  }

  lemma AddLineSpoken(cur: Option<SiteBlock>, l: string)
    ensures SpokenCur(AddLine(cur, l)) == if l == "" then SpokenCur(cur) else AddLine(SpokenCur(cur), l)
  {
    if cur.Some? {
      NonEmptyConcat(cur.value.lines, [l]);
      NonEmptyOne(l);
      assert NonEmpty(cur.value.lines) + [] == NonEmpty(cur.value.lines);
    }
  }

  lemma {:induction false} ConsSpoken(b: Option<SiteBlock>, rest: Result<seq<SiteBlock>, RouteError>)
    ensures SpokenResult(ConsBlocks(if b.Some? then [b.value] else [], rest))
         == ConsBlocks(if b.Some? then [SpokenCur(b).value] else [], SpokenResult(rest))
  {
    if rest.Ok? {
      if b.Some? {
        assert ([b.value] + rest.value)[1..] == rest.value;
      } else {
        assert [] + rest.value == rest.value && [] + SpokenAll(rest.value) == SpokenAll(rest.value);
      }
    }
  }

  lemma OpeningSpoken(raw: string, code: string)
    requires ReadTopLine(raw, code).Opening? && raw != ""
    ensures Spoken(ReadTopLine(raw, code).block) == ReadTopLine(raw, code).block
  {
    NonEmptyOne(raw);
  }

  lemma {:induction false} ParseSpoken(ls: seq<string>, d: int, cur: Option<SiteBlock>)
    requires d >= 0 && forall l :: l in ls ==> Calm(l)
    ensures SpokenResult(ParseFrom(NonEmpty(ls), d, SpokenCur(cur))) == SpokenResult(ParseFrom(ls, d, cur))
    decreases |ls|, 2
  {
    hide CodeLine, HeredocTerminator, ReadTopLine, BraceNet, NonEmpty, SpokenResult, SpokenCur, AddLine;
    if ls == [] {
      NothingSpoken();
    } else {
      var l, rest := ls[0], ls[1..];
      assert ls == [l] + rest && l in ls && forall x :: x in rest ==> x in ls;
      NonEmptyCons(l, rest);
      AddLineSpoken(cur, l);
      if l == "" {
        ParseEmptyLine(rest, d, cur);
        ParseSpoken(rest, d, AddLine(cur, ""));
        ParseSpoken(rest, d, cur);
      } else {
        ParseSpokenLine(l, rest, d, cur);
      }
    }
  }

  lemma NothingSpoken()
    ensures NonEmpty([]) == []
  {
  }

  /** An empty line is added to the open block and does nothing else. */
  lemma ParseEmptyLine(rest: seq<string>, d: nat, cur: Option<SiteBlock>)
    ensures d == 0 ==> ParseFrom([""] + rest, d, cur) == ParseFrom(rest, d, cur)
    ensures d > 0 ==> ParseFrom([""] + rest, d, cur) == ParseFrom(rest, d, AddLine(cur, ""))
  {
    hide HeredocTerminator, ReadTopLine;
    EmptyIsSkipped();
    assert ([""] + rest)[1..] == rest;
  }

  lemma ParseSpokenLine(l: string, rest: seq<string>, d: nat, cur: Option<SiteBlock>)
    requires l != "" && Calm(l) && forall x :: x in rest ==> Calm(x)
    ensures SpokenResult(ParseFrom([l] + NonEmpty(rest), d, SpokenCur(cur))) ==
      SpokenResult(ParseFrom([l] + rest, d, cur))
    decreases |rest| + 1, 1
  {
    hide CodeLine, HeredocTerminator, ReadTopLine, BraceNet, NonEmpty, SpokenResult, SpokenCur, AddLine, Calm,
      ParseFrom;
    if CodeLine(l).None? {
      ParseUnreadable(l, rest, d, cur);
      ParseUnreadable(l, NonEmpty(rest), d, SpokenCur(cur));
    } else if HeredocTerminator(CodeLine(l).value).Some? {
      ParseSpokenHeredoc(l, rest, d, cur);
    } else if d == 0 {
      ParseSpokenTop(l, CodeLine(l).value, rest, cur);
    } else {
      ParseSpokenInside(l, CodeLine(l).value, rest, d, cur);
    }
  }

  lemma ParseUnreadable(l: string, rest: seq<string>, d: nat, cur: Option<SiteBlock>)
    requires CodeLine(l).None?
    ensures ParseFrom([l] + rest, d, cur) == Err(UnterminatedQuote)
  {
  }

  lemma ParseHeredoc(l: string, code: string, rest: seq<string>, d: nat, cur: Option<SiteBlock>)
    requires CodeLine(l) == Some(code) && HeredocTerminator(code).Some?
    ensures ParseFrom([l] + rest, d, cur) ==
      ParseFrom(AfterTerminator(rest, HeredocTerminator(code).value), d, AddLine(cur, l))
  {
    assert ([l] + rest)[1..] == rest;
  }

  lemma ParseSpokenHeredoc(l: string, rest: seq<string>, d: nat, cur: Option<SiteBlock>)
    requires l != "" && CodeLine(l).Some? && HeredocTerminator(CodeLine(l).value).Some? && forall x :: x in rest ==>
      Calm(x)
    ensures SpokenResult(ParseFrom([l] + NonEmpty(rest), d, SpokenCur(cur))) ==
      SpokenResult(ParseFrom([l] + rest, d, cur))
    decreases |rest| + 1, 0
  {
    hide CodeLine, HeredocTerminator, NonEmpty, SpokenResult, SpokenCur, AddLine, Calm, ParseFrom;
    var code := CodeLine(l).value;
    var term := HeredocTerminator(code).value;
    AddLineSpoken(cur, l);
    TerminatorSpeaks(code);
    AfterTerminatorNonEmpty(rest, term);
    var after := AfterTerminator(rest, term);
    assert forall x :: x in after ==> x in rest;
    ParseHeredoc(l, code, rest, d, cur);
    ParseHeredoc(l, code, NonEmpty(rest), d, SpokenCur(cur));
    ParseSpoken(after, d, AddLine(cur, l));
  }

  lemma ParseInner(l: string, code: string, rest: seq<string>, d: nat, cur: Option<SiteBlock>)
    requires d > 0 && CodeLine(l) == Some(code) && HeredocTerminator(code).None?
    ensures var now := AddLine(cur, l);
      ParseFrom([l] + rest, d, cur) ==
        if d + BraceNet(code) == 0 then ConsBlocks(if now.Some? then [now.value] else [], ParseFrom(rest, 0, None))
        else if d + BraceNet(code) < 0 then Err(UnbalancedClose)
        else ParseFrom(rest, d + BraceNet(code), now)
  {
    hide BraceNet, CodeLine, HeredocTerminator;
    assert ([l] + rest)[1..] == rest;
  }

  lemma ParseSpokenInside(l: string, code: string, rest: seq<string>, d: nat, cur: Option<SiteBlock>)
    requires d > 0 && l != "" && CodeLine(l) == Some(code) && HeredocTerminator(code).None? &&
      forall x :: x in rest ==> Calm(x)
    ensures SpokenResult(ParseFrom([l] + NonEmpty(rest), d, SpokenCur(cur))) ==
      SpokenResult(ParseFrom([l] + rest, d, cur))
    decreases |rest| + 1, 0
  {
    hide CodeLine, HeredocTerminator, BraceNet, NonEmpty, SpokenResult, SpokenCur, AddLine, Calm, ParseFrom;
    AddLineSpoken(cur, l);
    ParseInner(l, code, rest, d, cur);
    ParseInner(l, code, NonEmpty(rest), d, SpokenCur(cur));
    if d + BraceNet(code) == 0 {
      ParseSpoken(rest, 0, None);
      NoCurSpoken();
      SameSpoken(AddLine(cur, l), ParseFrom(rest, 0, None), ParseFrom(NonEmpty(rest), 0, None));
    } else if d + BraceNet(code) > 0 {
      ParseSpoken(rest, d + BraceNet(code), AddLine(cur, l));
    }
  }

  lemma ParseSpokenTop(l: string, code: string, rest: seq<string>, cur: Option<SiteBlock>)
    requires l != "" && CodeLine(l) == Some(code) && HeredocTerminator(code).None? && Calm(l) &&
      forall x :: x in rest ==> Calm(x)
    ensures SpokenResult(ParseFrom([l] + NonEmpty(rest), 0, SpokenCur(cur))) ==
      SpokenResult(ParseFrom([l] + rest, 0, cur))
    decreases |rest| + 1, 0
  {
    assert ([l] + NonEmpty(rest))[1..] == NonEmpty(rest) && ([l] + rest)[1..] == rest;
    var top := ReadTopLine(l, code);
    match top {
      case Skipped => ParseSpoken(rest, 0, cur);
      case Refused(e) => ErrSpoken();
      case Opaque => ParseSpoken(rest, BraceNet(code), cur);
      case Opening(b) =>
        OpeningSpoken(l, code);
        ParseSpoken(rest, BraceNet(code), Some(b));
    }
  }

  lemma SameSpoken(b: Option<SiteBlock>, p: Result<seq<SiteBlock>, RouteError>, q: Result<seq<SiteBlock>, RouteError>)
    requires SpokenResult(p) == SpokenResult(q)
    ensures var s := SpokenCur(b);
      SpokenResult(ConsBlocks(if s.Some? then [s.value] else [], q)) ==
        SpokenResult(ConsBlocks(if b.Some? then [b.value] else [], p))
  {
    hide SpokenResult, ConsBlocks;
    ConsSpoken(b, p);
    ConsSpoken(SpokenCur(b), q);
    SpokenTwice(b);
  }

  lemma ErrSpoken()
    ensures forall e :: SpokenResult(Err(e)) == Err(e)
  {
  }

  lemma NoCurSpoken()
    ensures SpokenCur(None) == None
  {
  }

  lemma TerminatorSpeaks(code: string)
    requires HeredocTerminator(code).Some?
    ensures HeredocTerminator(code).value != ""
  {
  }

  lemma {:induction false} NonEmptyTwice(ls: seq<string>)
    ensures NonEmpty(NonEmpty(ls)) == NonEmpty(ls)
  {
    if ls != [] {
      var front, l := ls[..|ls| - 1], ls[|ls| - 1];
      NonEmptyTwice(front);
      NonEmptyConcat(NonEmpty(front), [l]);
      NonEmptyOne(l);
      assert NonEmpty(ls) == if l == "" then NonEmpty(front) else NonEmpty(front) + [l];
    }
  }

  lemma SpokenTwice(cur: Option<SiteBlock>)
    ensures SpokenCur(SpokenCur(cur)) == SpokenCur(cur)
  {
    if cur.Some? {
      NonEmptyTwice(cur.value.lines);
    }
  }

  /** Files whose views say the same parse to blocks that say the same. */
  lemma ParsesSame(a: seq<string>, b: seq<string>)
    requires NonEmpty(a) == NonEmpty(b) && forall l :: l in a || l in b ==> Calm(l)
    ensures SpokenResult(ParseFrom(a, 0, None)) == SpokenResult(ParseFrom(b, 0, None))
  {
    hide ParseFrom, SpokenResult, NonEmpty;
    ParseSpoken(a, 0, None);
    ParseSpoken(b, 0, None);
  }

  // ---- what the parser refuses ----

  /** How many braces are open before line i, when depth are before the first. */
  function DepthFrom(ls: seq<string>, depth: int, i: nat): int
    requires i <= |ls|
  {
    if i == 0 then depth else DepthFrom(ls[1..], depth + Net(ls[0]), i - 1)
  }

  lemma {:induction false} DepthShift(ls: seq<string>, depth: int, a: nat, b: nat)
    requires a + b <= |ls|
    ensures DepthFrom(ls, depth, a + b) == DepthFrom(ls[a..], DepthFrom(ls, depth, a), b)
  {
    hide Net;
    if a == 0 {
      assert ls[0..] == ls;
    } else {
      assert ls[1..][a - 1..] == ls[a..];
      DepthShift(ls[1..], depth + Net(ls[0]), a - 1, b);
    }
  }

  /** A line that no site block starts with: neither silent, nor one that opens
      braces and ends with one; or an import. Options and snippets are let pass. */
  predicate Alien(l: string) {
    var t := TrimSpace(Code(l));
    && t != "" && t[0] != '#'
    && (t == "import" || "import " <= t || !(t == "{" || t[0] == '(' || (t[|t| - 1] == '{' && Net(l) > 0)))
  }

  /** Such a line at the top level makes the whole text unreadable. */
  lemma {:induction false} AlienIsRefused(ls: seq<string>, depth: int, cur: Option<SiteBlock>, i: nat)
    requires i < |ls| && Alien(ls[i]) && DepthFrom(ls, depth, i) == 0
    requires forall j :: 0 <= j <= i ==> HeredocTerminator(Code(ls[j])).None?
    ensures ParseFrom(ls, depth, cur).Err?
    decreases |ls|
  {
    hide HeredocTerminator, CodeLine, TrimSpace, BraceNet;
    assert HeredocTerminator(Code(ls[0])).None?;
    if CodeLine(ls[0]).Some? {
      var code, net := Code(ls[0]), Net(ls[0]);
      if i == 0 {
        AlienIsNoSite(ls[0]);
      } else {
        assert forall j :: 0 <= j <= i - 1 ==> ls[1..][j] == ls[j + 1];
        if TrimSpace(code) == "" || TrimSpace(code)[0] == '#' {
          SilentIsFlat(ls[0]);
        }
        AlienIsRefused(ls[1..], depth + net, cur, i - 1);
        AlienIsRefused(ls[1..], depth + net, None, i - 1);
        AlienIsRefused(ls[1..], depth + net, AddLine(cur, ls[0]), i - 1);
        var top := ReadTopLine(ls[0], code);
        if top.Opening? {
          AlienIsRefused(ls[1..], depth + net, Some(top.block), i - 1);
        }
      }
    }
  }

  /** And then nothing is adopted: the edit is refused. */
  lemma AlienStopsAdoption(content: string, hosts: seq<string>, i: nat)
    requires var ls := LogicalLines(LinesOf(Unlines(View(LinesOf(content), false))));
      && i < |ls| && Alien(ls[i]) && DepthFrom(ls, 0, i) == 0
      && forall j :: 0 <= j <= i ==> HeredocTerminator(Code(ls[j])).None?
    ensures AdoptForeign(content, hosts).Err?
  {
    hide ParseFrom, DepthFrom, Alien, HeredocTerminator, Code, LogicalLines, LinesOf, View, Unlines;
    AlienIsRefused(LogicalLines(LinesOf(Unlines(View(LinesOf(content), false)))), 0, None, i);
  }

  lemma AlienIsNoSite(l: string)
    requires Alien(l)
    ensures ReadTopLine(l, Code(l)).Refused?
  {
    hide CodeLine, Trim, BraceNet;
    var t := TrimSpace(Code(l));
    if t == "import" || "import " <= t {
      assert "import" <= t && (|t| > 6 ==> t[6] == ' ');
    }
  }

  lemma SilentIsFlat(l: string)
    requires Coded(l) && (TrimSpace(Code(l)) == "" || TrimSpace(Code(l))[0] == '#')
    ensures Net(l) == 0
  {
    hide CodeFrom, BraceFrom, TrimLeft, TrimRight;
    CodeHead(l);
    if TrimLeft(Code(l), IsSpace) != "" {
      TrimKeepsHead(TrimLeft(Code(l), IsSpace), IsSpace);
    }
  }

  /** Code does not start with a comment, and blank code opens nothing. */
  lemma {:induction false} CodeHead(l: string)
    requires CodeFrom(l, None).Some?
    ensures var code := CodeFrom(l, None).value; var t := TrimLeft(code, IsSpace);
      if t == "" then BraceFrom(code, None) == 0 else t[0] != '#'
  {
    if l != "" && !IsQuote(l[0]) && l[0] != '\\' && l[0] != '#' {
      CodeHead(l[1..]);
      var code, rest := CodeFrom(l, None).value, CodeFrom(l[1..], None).value;
      assert code == [l[0]] + rest && code[1..] == rest;
    }
  }

  // ---- heredocs ----

  /** A line opens a heredoc exactly when its last word is << and a name, which is
      the terminator. */
  lemma HeredocIs(head: string, word: string, space: string)
    requires (forall c :: c in space ==> IsSpace(c)) && (forall c :: c in word ==> !IsSpace(c)) && word != ""
    requires head == "" || IsSpace(head[|head| - 1])
    ensures HeredocTerminator(head + word + space) ==
      if |word| > 2 && word[0] == '<' && word[1] == '<' then Some(word[2..]) else None
  {
    hide LastWord, TrimRight;
    assert word[|word| - 1] in word;
    TrimRightOf(head + word, space, IsSpace);
    LastWordIs(head, word);
    if "<<" <= word {
      assert word[..2] == "<<" && word[0] == "<<"[0];
    }
  }

  lemma {:induction false} LastWordIs(head: string, word: string)
    requires (forall c :: c in word ==> !IsSpace(c)) && (head == "" || IsSpace(head[|head| - 1]))
    ensures LastWord(head + word) == word
  {
    hide IsSpace;
    if word == "" {
      assert head + word == head;
    } else {
      var front, last := word[..|word| - 1], word[|word| - 1];
      assert last in word && forall c :: c in front ==> c in word;
      LastWordIs(head, front);
      var whole := head + word;
      assert whole[..|whole| - 1] == head + front && whole[|whole| - 1] == last && word == front + [last];
    }
  }

  /** What follows the first line that is the terminator, or nothing. */
  lemma {:induction false} AfterTerminatorIs(ls: seq<string>, term: string, i: nat)
    requires i <= |ls| && (i < |ls| ==> TrimSpace(ls[i]) == term)
    requires forall j :: 0 <= j < i ==> TrimSpace(ls[j]) != term
    ensures AfterTerminator(ls, term) == if i < |ls| then ls[i + 1..] else []
  {
    hide TrimSpace;
    if i > 0 {
      AfterTerminatorIs(ls[1..], term, i - 1);
    }
  }
}
