/** A Caddyfile as managed regions between the logical lines of everyone else,
    and how merging, viewing and collapsing act on it (internal/caddy/routes.go). */
module RoutePieces {
  import opened Wrappers
  import opened Lines
  import opened Text
  import opened TextLines
  import opened Regions
  import opened RouteLex
  import opened Routes

  datatype Piece = Free(line: string) | Region(app: string, begin: string, body: seq<string>, end: string)

  /** The lines merging leaves open. */
  function OpenAfter(ls: seq<string>, open: bool): bool {
    if ls == [] then open else OpenAfter(ls[1..], open != OddBackticks(ls[0]))
  }

  lemma {:induction false} LogicalConcat(a: seq<string>, b: seq<string>, open: bool, buf: seq<string>)
    requires open <==> buf != []
    requires !OpenAfter(a, open)
    ensures LogicalFrom(a + b, open, buf) == LogicalFrom(a, open, buf) + LogicalLines(b)
    decreases |a|
  {
    hide OddBackticks;
    if a == [] {
      assert a + b == b;
    } else {
      var l := a[0];
      assert (a + b)[1..] == a[1..] + b;
      if open == OddBackticks(l) {
        LogicalConcat(a[1..], b, false, []);
        if !open {
          assert LogicalFrom(a + b, open, buf) == [l] + LogicalFrom(a[1..] + b, false, []);
        } else {
          assert LogicalFrom(a + b, open, buf) == [Unlines(buf + [l])] + LogicalFrom(a[1..] + b, false, []);
        }
      } else if open {
        LogicalConcat(a[1..], b, true, buf + [l]);
      } else {
        LogicalConcat(a[1..], b, true, [l]);
      }
    }
  }

  predicate MarkerPrefixed(l: string) { BEGIN_PREFIX <= TrimSpace(l) || END_PREFIX <= TrimSpace(l) }

  predicate NoPrefixes(ls: seq<string>) { forall l :: l in ls ==> !MarkerPrefixed(l) }

  /** A line of someone else's: whole, without marker lines, and without two
      empty lines in a row inside a literal. */
  predicate FreeLine(l: string) {
    Unit(l) && NoPrefixes(LinesOf(l)) && Squeeze(l, 0) == l
  }

  predicate GoodRegion(p: Piece)
    requires p.Region?
  {
    && MarkOf(p.begin) == Begin(p.app) && MarkOf(p.end) == End(p.app)
    && '\n' !in p.begin && '\n' !in p.end && !OddBackticks(p.begin) && !OddBackticks(p.end)
    && !OpenAfter(p.body, false) && NoPrefixes(p.body) && (forall l :: l in p.body ==> '\n' !in l)
  }

  predicate GoodPiece(p: Piece) {
    if p.Free? then FreeLine(p.line) else GoodRegion(p)
  }

  predicate GoodPieces(ps: seq<Piece>) { forall p :: p in ps ==> GoodPiece(p) }

  function PhysicalOf(p: Piece): seq<string> {
    if p.Free? then LinesOf(p.line) else [p.begin] + p.body + [p.end]
  }

  function Physical(ps: seq<Piece>): seq<string> {
    if ps == [] then [] else PhysicalOf(ps[0]) + Physical(ps[1..])
  }

  function WholeOf(p: Piece): seq<string> {
    if p.Free? then [p.line] else [p.begin] + LogicalLines(p.body) + [p.end]
  }

  /** The logical lines of the file. */
  function Whole(ps: seq<Piece>): seq<string> {
    if ps == [] then [] else WholeOf(ps[0]) + Whole(ps[1..])
  }

  function Blanks(n: nat): seq<string> { seq(n, _ => "") }

  function ViewedOf(p: Piece): seq<string> {
    if p.Free? then [p.line] else [p.begin] + Blanks(|p.body|) + [p.end]
  }

  /** The logical lines of the parse view. */
  function Viewed(ps: seq<Piece>): seq<string> {
    if ps == [] then [] else ViewedOf(ps[0]) + Viewed(ps[1..])
  }

  // ---- merging ----

  lemma LogicalOne(l: string, rest: seq<string>)
    requires !OddBackticks(l)
    ensures LogicalLines([l] + rest) == [l] + LogicalLines(rest)
  {
    assert ([l] + rest)[1..] == rest;
  }

  lemma RegionMerges(p: Piece, middle: seq<string>, rest: seq<string>)
    requires p.Region? && GoodRegion(p) && !OpenAfter(middle, false)
    ensures LogicalLines([p.begin] + middle + [p.end] + rest) ==
      [p.begin] + LogicalLines(middle) + [p.end] + LogicalLines(rest)
  {
    hide OddBackticks, MarkOf, LogicalFrom;
    LogicalOne(p.end, rest);
    LogicalConcat(middle, [p.end] + rest, false, []);
    LogicalOne(p.begin, middle + ([p.end] + rest));
    assert [p.begin] + middle + [p.end] + rest == [p.begin] + (middle + ([p.end] + rest));
  }

  lemma {:induction false} PhysicalMerges(ps: seq<Piece>)
    requires GoodPieces(ps)
    ensures LogicalLines(Physical(ps)) == Whole(ps)
  {
    hide LogicalFrom, LinesOf, GoodRegion;
    if ps == [] {
      NothingMerges();
    } else {
      var p, rest := ps[0], ps[1..];
      assert GoodPiece(p);
      PhysicalMerges(rest);
      if p.Free? {
        UnitMerges(p.line, Physical(rest));
      } else {
        RegionCloses(p);
        RegionMerges(p, p.body, Physical(rest));
      }
    }
  }

  lemma RegionCloses(p: Piece)
    requires p.Region? && GoodRegion(p)
    ensures !OpenAfter(p.body, false)
  {
  }

  // ---- the view ----

  lemma {:induction false} ViewConcat(a: seq<string>, b: seq<string>, inManaged: bool)
    ensures View(a + b, inManaged) == View(a, inManaged) + View(b, ManagedAfter(a, inManaged))
  {
    hide OpensRegion, ClosesRegion;
    if a == [] {
      assert a + b == b;
    } else {
      assert (a + b)[1..] == a[1..] + b;
      ViewConcat(a[1..], b, OpensRegion(a[0]) || (inManaged && !ClosesRegion(a[0])));
    }
  }

  function ManagedAfter(ls: seq<string>, inManaged: bool): bool {
    if ls == [] then inManaged else ManagedAfter(ls[1..], OpensRegion(ls[0]) || (inManaged && !ClosesRegion(ls[0])))
  }

  lemma NothingViewed(inManaged: bool)
    ensures View([], inManaged) == []
  {
  }

  lemma ViewCons(l: string, rest: seq<string>, inManaged: bool)
    ensures var now := OpensRegion(l) || (inManaged && !ClosesRegion(l));
      View([l] + rest, inManaged) == [if now && !OpensRegion(l) then "" else l] + View(rest, now)
  {
    assert ([l] + rest)[1..] == rest;
  }

  lemma {:induction false} ViewPlain(ls: seq<string>, inManaged: bool)
    requires NoPrefixes(ls)
    ensures View(ls, inManaged) == (if inManaged then Blanks(|ls|) else ls) && ManagedAfter(ls, inManaged) == inManaged
  {
    hide Trim, View;
    if ls == [] {
      NothingViewed(inManaged);
      assert Blanks(0) == [];
    } else {
      assert ls[0] in ls && forall l :: l in ls[1..] ==> l in ls;
      ViewPlain(ls[1..], inManaged);
      ViewCons(ls[0], ls[1..], inManaged);
      assert ls == [ls[0]] + ls[1..];
      assert Blanks(|ls|) == [""] + Blanks(|ls| - 1);
    }
  }

  lemma MarkPrefixed(l: string)
    ensures MarkOf(l).Begin? ==> OpensRegion(l)
    ensures MarkOf(l).End? ==> ClosesRegion(l)
    ensures !MarkerPrefixed(l) ==> MarkOf(l) == Plain
  {
    hide Trim, ValidName, TrimPrefix;
    TrimSpaceOfTrimSuffix(l);
    var t := TrimSpace(l);
    assert BEGIN_PREFIX[9] == 'B' && END_PREFIX[9] == 'E';
    assert BEGIN_PREFIX <= t ==> t[9] == 'B';
    assert END_PREFIX <= t ==> t[9] == 'E';
  }

  lemma MarkSpeaks(l: string)
    requires MarkOf(l) != Plain
    ensures l != "" && TrimSpace(l) != "" && TrimSpace(l)[0] == '#'
  {
    hide ValidName, TrimPrefix;
    TrimSpaceOfTrimSuffix(l);
    assert TrimSpace("") == "";
  }

  lemma ViewRegionBody(begin: string, middle: seq<string>, end: string, rest: seq<string>)
    requires OpensRegion(begin) && ClosesRegion(end) && !OpensRegion(end) && NoPrefixes(middle)
    ensures View([begin] + (middle + ([end] + rest)), false) ==
      [begin] + (Blanks(|middle|) + ([end] + View(rest, false)))
  {
    hide View, OpensRegion, ClosesRegion, NoPrefixes, Blanks;
    ViewCons(begin, middle + ([end] + rest), false);
    ViewConcat(middle, [end] + rest, true);
    ViewPlain(middle, true);
    ViewCons(end, rest, true);
  }

  lemma ViewRegion(p: Piece, middle: seq<string>, rest: seq<string>)
    requires p.Region? && MarkOf(p.begin).Begin? && MarkOf(p.end).End? && NoPrefixes(middle)
    ensures View([p.begin] + middle + [p.end] + rest, false) ==
      [p.begin] + Blanks(|middle|) + [p.end] + View(rest, false)
  {
    hide MarkOf, OddBackticks, OpenAfter, View, OpensRegion, ClosesRegion, NoPrefixes, Blanks;
    MarkPrefixed(p.begin);
    MarkPrefixed(p.end);
    BeginCloses(p.begin, p.end);
    ViewRegionBody(p.begin, middle, p.end, rest);
    Regroup([p.begin], middle, [p.end], rest);
    Regroup([p.begin], Blanks(|middle|), [p.end], View(rest, false));
  }

  lemma Regroup(a: seq<string>, b: seq<string>, c: seq<string>, d: seq<string>)
    ensures a + b + c + d == a + (b + (c + d))
  {
  }

  lemma BeginCloses(begin: string, end: string)
    requires ClosesRegion(end)
    ensures !OpensRegion(end)
  {
  }

  lemma {:induction false} BlanksMerge(n: nat)
    ensures LogicalLines(Blanks(n)) == Blanks(n) && !OpenAfter(Blanks(n), false)
  {
    if n > 0 {
      assert Blanks(n) == [""] + Blanks(n - 1);
      assert Blanks(n)[1..] == Blanks(n - 1);
      BlanksMerge(n - 1);
      LogicalOne("", Blanks(n - 1));
    }
  }

  lemma RegionViews(p: Piece, middle: seq<string>, rest: seq<string>)
    requires p.Region? && GoodRegion(p) && NoPrefixes(middle)
    ensures LogicalLines(View([p.begin] + middle + [p.end] + rest, false)) ==
      [p.begin] + Blanks(|middle|) + [p.end] + LogicalLines(View(rest, false))
  {
    hide MarkOf, LogicalFrom, View, NoPrefixes;
    ViewRegion(p, middle, rest);
    BlanksMerge(|middle|);
    RegionMerges(p, Blanks(|middle|), View(rest, false));
  }

  lemma FreeViews(p: Piece, rest: seq<string>)
    requires p.Free? && FreeLine(p.line)
    ensures LogicalLines(View(LinesOf(p.line) + rest, false)) == [p.line] + LogicalLines(View(rest, false))
  {
    hide LogicalFrom, LinesOf, View;
    ViewConcat(LinesOf(p.line), rest, false);
    ViewPlain(LinesOf(p.line), false);
    UnitMerges(p.line, View(rest, false));
  }

  lemma {:induction false} PhysicalViews(ps: seq<Piece>)
    requires GoodPieces(ps)
    ensures LogicalLines(View(Physical(ps), false)) == Viewed(ps)
  {
    hide LogicalFrom, LinesOf, FreeLine;
    if ps == [] {
      NothingMerges();
      assert View([], false) == [];
    } else {
      var p, rest := ps[0], ps[1..];
      assert GoodPiece(p);
      PhysicalViews(rest);
      if p.Free? {
        FreeViews(p, Physical(rest));
      } else {
        RegionViews(p, p.body, Physical(rest));
      }
    }
  }

  // ---- collapsing ----

  lemma {:induction false} BlanksAreEmpty(n: nat)
    ensures NonEmpty(Blanks(n)) == []
  {
    if n > 0 {
      assert Blanks(n)[..n - 1] == Blanks(n - 1);
      BlanksAreEmpty(n - 1);
    }
  }

  lemma NonEmptyRegion(p: Piece, n: nat, rest: seq<string>)
    requires p.Region? && p.begin != "" && p.end != ""
    ensures NonEmpty([p.begin] + Blanks(n) + [p.end] + rest) == [p.begin, p.end] + NonEmpty(rest)
  {
    BlanksAreEmpty(n);
    NonEmptyConcat([p.begin] + Blanks(n) + [p.end], rest);
    NonEmptyConcat([p.begin] + Blanks(n), [p.end]);
    NonEmptyConcat([p.begin], Blanks(n));
    NonEmptyOne(p.begin);
    NonEmptyOne(p.end);
  }

  lemma NonEmptyOne(l: string)
    ensures NonEmpty([l]) == if l == "" then [] else [l]
  {
    assert [l][..0] == [];
  }

  /** Squeezing leaves a free line alone, or drops it if it is empty. */
  lemma SqueezeFreeLine(l: string, n: nat)
    requires FreeLine(l)
    ensures l == "" ==> SqueezeLines(LinesOf(l), n) == if n >= 2 then [] else [""]
    ensures l != "" ==> SqueezeLines(LinesOf(l), n) == LinesOf(l)
  {
    hide OddBackticks, MarkerPrefixed;
    LinesOfText(l);
    if l == "" {
      assert LinesOf(l) == [""] && [""][1..] == [];
    } else {
      FirstLineSpeaks(l);
      SqueezeWhole(l, n);
    }
  }

  /** A unit that is not empty starts and ends with a line that is not. */
  lemma FirstLineSpeaks(l: string)
    requires Unit(l) && l != ""
    ensures LinesOf(l)[0] != "" && Last(LinesOf(l)) != ""
  {
    LinesOfText(l);
    var ls := LinesOf(l);
    if |ls| == 1 {
      UnlinesCons(ls[0], []);
      assert ls == [ls[0]] + [];
    }
  }

  lemma SqueezeWhole(l: string, n: nat)
    requires LinesOf(l)[0] != "" && Last(LinesOf(l)) != "" && Squeeze(l, 0) == l
    ensures SqueezeLines(LinesOf(l), n) == LinesOf(l)
  {
    hide LinesOf;
    var ls := LinesOf(l);
    SplitSqueeze(l, 0);
    assert ls == Front(ls) + [Last(ls)];
    SqueezeLinesConcat(Front(ls), [Last(ls)], 0);
    assert [Last(ls)][1..] == [];
    assert SqueezeLines(ls, 0) == ls;
    assert SqueezeLines(ls, n) == [ls[0]] + SqueezeLines(ls[1..], 1) == SqueezeLines(ls, 0);
  }

  lemma SqueezeRegion(p: Piece, rest: seq<string>, n: nat)
    requires p.Region? && p.begin != "" && p.end != ""
    ensures SqueezeLines(PhysicalOf(p) + rest, n) ==
      [p.begin] + SqueezeLines(p.body, 1) + [p.end] + SqueezeLines(rest, 1)
  {
    var tail := [p.end] + rest;
    assert PhysicalOf(p) + rest == [p.begin] + (p.body + tail);
    assert ([p.begin] + (p.body + tail))[1..] == p.body + tail;
    SqueezeLinesConcat(p.body, tail, 1);
    assert tail[1..] == rest;
  }

  /** The view of the squeezed file says what the view of the file says. */
  lemma {:induction false} SqueezedViews(ps: seq<Piece>, n: nat, tail: seq<string>)
    requires GoodPieces(ps) && (tail == [] || tail == [""])
    ensures NonEmpty(LogicalLines(View(SqueezeLines(Physical(ps), n) + tail, false))) == NonEmpty(Viewed(ps))
    decreases |ps|, 1
  {
    hide LogicalFrom, LinesOf, FreeLine, GoodRegion, View, NonEmpty;
    if ps == [] {
      assert SqueezeLines([], n) + tail == tail;
      EmptyTailViews(tail);
    } else {
      var p, rest := ps[0], ps[1..];
      assert GoodPiece(p);
      if p.Free? {
        SqueezeLinesConcat(LinesOf(p.line), Physical(rest), n);
        SqueezeFreeLine(p.line, n);
        var m := NewlinesAfter(LinesOf(p.line), n);
        SqueezedViews(rest, m, tail);
        var after := SqueezeLines(Physical(rest), m) + tail;
        assert SqueezeLines(Physical(ps), n) + tail == SqueezeLines(LinesOf(p.line), n) + after;
        FreeViews(p, after);
        NonEmptyConcat([p.line], LogicalLines(View(after, false)));
        NonEmptyConcat([p.line], Viewed(rest));
        NonEmptyOne(p.line);
        assert p.line == "" ==> LinesOf(p.line) == [""] by { SplitEmpty(); }
        assert [] + after == after;
      } else {
        SqueezedViewsRegion(ps, n, tail);
      }
    }
  }

  lemma EmptyTailViews(tail: seq<string>)
    requires tail == [] || tail == [""]
    ensures NonEmpty(LogicalLines(View(tail, false))) == NonEmpty([])
  {
    if tail == [] {
      NothingMerges();
      assert View([], false) == [];
    } else {
      assert TrimSpace("") == "";
      assert View([""], false) == [""] by {
        assert [""][1..] == [];
        assert !OpensRegion("");
      }
      LogicalOne("", []);
      NothingMerges();
      assert [""] + [] == [""];
      NonEmptyOne("");
    }
  }

  lemma SqueezedViewsRegion(ps: seq<Piece>, n: nat, tail: seq<string>)
    requires GoodPieces(ps) && (tail == [] || tail == [""]) && ps != [] && ps[0].Region?
    ensures NonEmpty(LogicalLines(View(SqueezeLines(Physical(ps), n) + tail, false))) == NonEmpty(Viewed(ps))
    decreases |ps|, 0
  {
    hide LogicalFrom, LinesOf, FreeLine, View, NonEmpty, MarkOf, OddBackticks, MarkerPrefixed, OpenAfter,
      SqueezeLines, PhysicalOf;
    var p, rest := ps[0], ps[1..];
    assert GoodPiece(p);
    MarkSpeaks(p.begin);
    MarkSpeaks(p.end);
    SqueezedViews(rest, 1, tail);
    var after, body := SqueezeLines(Physical(rest), 1) + tail, SqueezeLines(p.body, 1);
    SqueezeRegion(p, Physical(rest), n);
    SqueezedMembers(p.body, 1);
    assert SqueezeLines(Physical(ps), n) + tail == [p.begin] + body + [p.end] + after;
    RegionViews(p, body, after);
    NonEmptyRegion(p, |body|, LogicalLines(View(after, false)));
    NonEmptyRegion(p, |p.body|, Viewed(rest));
  }
}
