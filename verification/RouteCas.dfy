/** The exact-block compare-and-swap (internal/caddy/caddy.go): the region a
    caller resolved against the one the commit command finds on disk. */
module RouteCas {
  import opened Wrappers
  import opened Text
  import opened TextLines
  import opened Regions
  import opened RegionLaws
  import opened RegionEdit

  // ---- the region as the client reads it ----

  function RegionLines(ls: seq<string>, app: string, active: bool, out: seq<string>): Option<seq<string>>
    decreases |ls|
  {
    if ls == [] then None
    else match MarkOf(ls[0])
      case Begin(a) => RegionLines(ls[1..], app, active || a == app, if a == app then out + [ls[0]] else out)
      case End(a) => if active && a == app then Some(out + [ls[0]]) else RegionLines(ls[1..], app, active, out)
      case Plain => RegionLines(ls[1..], app, active, if active then out + [ls[0]] else out)
  }

  function ManagedRegion(content: string, app: string): string {
    match RegionLines(LinesOf(content), app, false, [])
    case None => ""
    case Some(out) => Unlines(out)
  }

  method ExtractManagedRegion(content: string, app: string) returns (region: string)
    ensures region == ManagedRegion(content, app)
  {
    hide MarkOf, LinesOf;
    var ls := LinesOf(content);
    var out: seq<string> := [];
    var active := false;
    assert ls[0..] == ls;
    for i := 0 to |ls|
      invariant RegionLines(ls, app, false, []) == RegionLines(ls[i..], app, active, out)
    {
      assert ls[i..][1..] == ls[i + 1..];
      match MarkOf(ls[i]) {
        case Begin(a) =>
          if a == app {
            active := true;
            out := out + [ls[i]];
          }
        case End(a) =>
          if active && a == app {
            out := out + [ls[i]];
            return Unlines(out);
          }
        case Plain =>
          if active {
            out := out + [ls[i]];
          }
      }
    }
    region := "";
  }

  const FRAME := "present"

  /** The file as it comes back framed from the server: trimmed at its end, since
      the frame is trimmed as a whole. */
  function ServerFile(text: string): string {
    var out := TrimRight(TrimSpace(FRAME + "\n" + text), IsNewline);
    if out == FRAME then "" else TrimPrefix(out, FRAME + "\n")
  }

  lemma ServerFileIs(text: string)
    ensures ServerFile(text) == TrimRight(text, IsSpace)
  {
    hide TrimRight, TrimSpace, FRAME;
    FrameIs();
    var r := TrimRight(text, IsSpace);
    var c := RightPart(text, IsSpace);
    var all := FRAME + "\n" + text;
    if r == "" {
      assert text == r + c == c;
      FrameStays(all, FRAME, "\n" + c);
    } else {
      var kept := FRAME + "\n" + r;
      assert kept[|kept| - 1] == r[|r| - 1];
      FrameStays(all, kept, c);
      assert kept[|FRAME + "\n"|..] == r;
    }
  }

  lemma FrameIs()
    ensures FRAME != "" && !IsSpace(FRAME[0]) && !IsSpace(FRAME[|FRAME| - 1])
  {
  }

  lemma FrameStays(all: string, kept: string, c: string)
    requires kept != "" && !IsSpace(kept[0]) && !IsSpace(kept[|kept| - 1])
    requires all == kept + c && forall x :: x in c ==> IsSpace(x)
    ensures TrimRight(TrimSpace(all), IsNewline) == kept
  {
    hide TrimRight;
    assert TrimLeft(all, IsSpace) == all;
    TrimRightOf(kept, c, IsSpace);
    assert kept + "" == kept;
    TrimRightOf(kept, "", IsNewline);
  }

  /** The region a caller resolves: of a file that is not there, none. */
  function Resolved(text: string, app: string): string { ManagedRegion(ServerFile(text), app) }

  // ---- the region as the commit command prints it ----

  /** The file's lines as sed counts them: what follows the last newline is one
      only if it is not empty. */
  function DiskLines(text: string): seq<string> {
    var ls := LinesOf(text);
    if Last(ls) == "" then Front(ls) else ls
  }

  /** The last line is not ended by a newline. */
  predicate Unended(text: string) { Last(LinesOf(text)) != "" }

  /** sed -n '/^begin$/,/^end$/p' on lines. */
  function SedPrint(ls: seq<string>, begin: string, end: string, inRange: bool): seq<string> {
    if ls == [] then []
    else if inRange then [ls[0]] + SedPrint(ls[1..], begin, end, ls[0] != end)
    else if ls[0] == begin then [ls[0]] + SedPrint(ls[1..], begin, end, true)
    else SedPrint(ls[1..], begin, end, false)
  }

  /** Whether the last line is among those printed. */
  predicate PrintsLast(ls: seq<string>, begin: string, end: string, inRange: bool): (p: bool)
    ensures p ==> ls != [] && SedPrint(ls, begin, end, inRange) != []
  {
    if ls == [] then false
    else if |ls| == 1 then inRange || ls[0] == begin
    else PrintsLast(ls[1..], begin, end, if inRange then ls[0] != end else ls[0] == begin)
  }

  function Terminated(ls: seq<string>): (r: string)
    ensures |r| >= |ls|
  {
    if ls == [] then "" else ls[0] + "\n" + Terminated(ls[1..])
  }

  function Printed(ls: seq<string>, app: string): seq<string> {
    SedPrint(ls, BEGIN_PREFIX + app, END_PREFIX + app, false)
  }

  predicate OpenAtEnd(text: string, app: string) {
    Unended(text) && PrintsLast(DiskLines(text), BEGIN_PREFIX + app, END_PREFIX + app, false)
  }

  /** What sed prints of a file: every line with a newline after it, but for a
      last line that has none in the file either. */
  function SedText(text: string, app: string): string {
    var all := Terminated(Printed(DiskLines(text), app));
    if OpenAtEnd(text, app) then all[..|all| - 1] else all
  }

  /** What ManagedRegionHash hashes. */
  function Payload(region: string): string { if region == "" then "" else region + "\n" }

  /** The commit-time check; hashes are taken to be as distinct as what they
      hash, and no acceptable region stands for an absent one. */
  predicate CasPasses(text: string, app: string, acceptable: seq<string>) {
    if acceptable == [] then SedText(text, app) == Payload("")
    else exists r :: r in acceptable && SedText(text, app) == Payload(r)
  }

  // ---- they agree ----

  /** Every marker line is written exactly as an edit writes it. */
  ghost predicate Exact(ls: seq<string>) {
    forall l, a :: l in ls ==>
      && (MarkOf(l) == Begin(a) ==> l == BEGIN_PREFIX + a)
      && (MarkOf(l) == End(a) ==> l == END_PREFIX + a)
  }

  /** The rest of a region once its first line is read: plain lines, or the app's
      begin line again, up to its end line. */
  ghost predicate RegionTail(ls: seq<string>, app: string) {
    && ls != [] && MarkOf(Last(ls)) == End(app)
    && forall i :: 0 <= i < |ls| - 1 ==> MarkOf(ls[i]) == Plain || MarkOf(ls[i]) == Begin(app)
  }

  lemma {:induction false} RegionHasTail(ls: seq<string>, app: string, out: seq<string>)
    requires RegionLines(ls, app, true, out).Some?
    ensures var r := RegionLines(ls, app, true, out).value;
      out <= r && RegionTail(r[|out|..], app) && forall l :: l in r[|out|..] ==> l in ls
    decreases |ls|
  {
    hide MarkOf;
    if ls != [] {
      var l := ls[0];
      if MarkOf(l) == End(app) {
        assert (out + [l])[|out|..] == [l];
      } else if MarkOf(l) == Plain || MarkOf(l) == Begin(app) {
        RegionHasTail(ls[1..], app, out + [l]);
        var r := RegionLines(ls, app, true, out).value;
        assert r[|out|..] == [l] + r[|out + [l]|..];
      } else {
        RegionHasTail(ls[1..], app, out);
      }
    }
  }

  /** A region the client resolves begins with its begin line. */
  lemma {:induction false} ResolvedShape(ls: seq<string>, app: string)
    requires Exact(ls) && RegionLines(ls, app, false, []).Some?
    ensures var r := RegionLines(ls, app, false, []).value;
      |r| > 0 && r[0] == BEGIN_PREFIX + app && RegionTail(r[1..], app) && forall l :: l in r ==> l in ls
    decreases |ls|
  {
    hide MarkOf, RegionTail;
    if ls != [] {
      var l := ls[0];
      assert l in ls && forall x :: x in ls[1..] ==> x in ls;
      if MarkOf(l) == Begin(app) {
        assert [] + [l] == [l];
        RegionHasTail(ls[1..], app, [l]);
        var r := RegionLines(ls, app, false, []).value;
        assert r == [l] + r[1..];
      } else {
        ResolvedShape(ls[1..], app);
      }
    }
  }

  /** Lines that no range starts at hold no marker of the app that begins one. */
  lemma {:induction false} NothingPrinted(ls: seq<string>, app: string, out: seq<string>)
    requires Exact(ls) && SedPrint(ls, BEGIN_PREFIX + app, END_PREFIX + app, false) == []
    ensures RegionLines(ls, app, false, out).None?
    decreases |ls|
  {
    hide MarkOf;
    if ls != [] {
      assert ls[0] in ls && forall x :: x in ls[1..] ==> x in ls;
      NothingPrinted(ls[1..], app, out);
    }
  }

  lemma MarksDiffer(app: string)
    requires ValidName(app)
    ensures MarkOf(BEGIN_PREFIX + app) == Begin(app) && MarkOf(END_PREFIX + app) == End(app)
  {
    RenderedMark(BEGIN_PREFIX, app);
    RenderedMark(END_PREFIX, app);
  }

  lemma RegionTailHead(tail: seq<string>, app: string)
    requires RegionTail(tail, app)
    ensures tail != [] && (|tail| == 1 <==> MarkOf(tail[0]) == End(app))
    ensures |tail| > 1 ==> RegionTail(tail[1..], app) && (MarkOf(tail[0]) == Plain || MarkOf(tail[0]) == Begin(app))
  {
    hide MarkOf;
    if |tail| > 1 {
      assert MarkOf(tail[0]) == Plain || MarkOf(tail[0]) == Begin(app);
      assert Last(tail[1..]) == Last(tail);
      forall i | 0 <= i < |tail[1..]| - 1 ensures MarkOf(tail[1..][i]) == Plain || MarkOf(tail[1..][i]) == Begin(app) {
        assert MarkOf(tail[i + 1]) == Plain || MarkOf(tail[i + 1]) == Begin(app);
      }
    }
  }

  lemma {:induction false} PrintedTail(ls: seq<string>, app: string, out: seq<string>, tail: seq<string>)
    requires Exact(ls) && ValidName(app) && RegionTail(tail, app)
    requires SedPrint(ls, BEGIN_PREFIX + app, END_PREFIX + app, true) == tail
    ensures RegionLines(ls, app, true, out) == Some(out + tail)
    decreases |ls|
  {
    hide MarkOf, ValidName, RegionTail;
    MarksDiffer(app);
    RegionTailHead(tail, app);
    if ls != [] {
      var l := ls[0];
      assert l in ls && forall x :: x in ls[1..] ==> x in ls;
      assert tail == [l] + tail[1..];
      if |tail| > 1 {
        PrintedTail(ls[1..], app, out + [l], tail[1..]);
        assert out + [l] + tail[1..] == out + tail;
      } else {
        assert tail == [l];
      }
    }
  }

  /** What sed prints is a region a client can resolve only if it is the region
      a client would resolve from that very file. */
  lemma {:induction false} PrintedIsResolved(ls: seq<string>, app: string, r: seq<string>)
    requires Exact(ls) && ValidName(app)
    requires |r| > 0 && r[0] == BEGIN_PREFIX + app && RegionTail(r[1..], app)
    requires SedPrint(ls, BEGIN_PREFIX + app, END_PREFIX + app, false) == r
    ensures RegionLines(ls, app, false, []) == Some(r)
    decreases |ls|
  {
    hide MarkOf, ValidName, RegionTail;
    MarksDiffer(app);
    if ls != [] {
      var l := ls[0];
      assert l in ls && forall x :: x in ls[1..] ==> x in ls;
      if l == BEGIN_PREFIX + app {
        assert r[1..] == SedPrint(ls[1..], BEGIN_PREFIX + app, END_PREFIX + app, true);
        PrintedTail(ls[1..], app, [l], r[1..]);
        assert [] + [l] == [l] && [l] + r[1..] == r;
      } else {
        PrintedIsResolved(ls[1..], app, r);
      }
    }
  }

  // ---- strings ----

  lemma {:induction false} TerminatedLines(ls: seq<string>)
    requires forall l :: l in ls ==> '\n' !in l
    ensures LinesOf(Terminated(ls)) == ls + [""]
  {
    if ls == [] {
      assert [] + [""] == [""];
    } else {
      assert ls[0] in ls && forall l :: l in ls[1..] ==> l in ls;
      TerminatedLines(ls[1..]);
      LinesOfText(Terminated(ls[1..]));
      var rest := Terminated(ls[1..]);
      UnlinesAppend([ls[0]], LinesOf(rest));
      LinesOfUnlines([ls[0]] + LinesOf(rest));
      assert [ls[0]] + (ls[1..] + [""]) == ls + [""];
    }
  }

  lemma TerminatedInjective(a: seq<string>, b: seq<string>)
    requires forall l :: l in a || l in b ==> '\n' !in l
    requires Terminated(a) == Terminated(b)
    ensures a == b
  {
    TerminatedLines(a);
    TerminatedLines(b);
    assert a == (a + [""])[..|a|];
    assert |a + [""]| == |b + [""]|;
    assert b == (b + [""])[..|b|];
  }

  lemma {:induction false} PayloadOfLines(ls: seq<string>)
    requires ls != [] && (|ls| > 1 || ls[0] != "")
    ensures Payload(Unlines(ls)) == Terminated(ls)
  {
    if |ls| == 1 {
      assert ls == [ls[0]] && ls[1..] == [];
    } else {
      UnlinesTerminated(ls);
      UnlinesAppend([ls[0]], ls[1..]);
      assert [ls[0]] + ls[1..] == ls;
    }
  }

  lemma {:induction false} UnlinesTerminated(ls: seq<string>)
    requires ls != []
    ensures Unlines(ls) + "\n" == Terminated(ls)
  {
    if |ls| == 1 {
      assert ls == [ls[0]] && ls[1..] == [];
    } else {
      UnlinesTerminated(ls[1..]);
      UnlinesAppend([ls[0]], ls[1..]);
      assert [ls[0]] + ls[1..] == ls;
    }
  }

  lemma {:induction false} PrintedAreLines(ls: seq<string>, begin: string, end: string, inRange: bool)
    ensures forall l :: l in SedPrint(ls, begin, end, inRange) ==> l in ls
  {
    if ls != [] {
      PrintedAreLines(ls[1..], begin, end, true);
      PrintedAreLines(ls[1..], begin, end, false);
    }
  }

  /** The client's region of a file given by its lines. */
  function Resolve(ls: seq<string>, app: string): string {
    match RegionLines(ls, app, false, [])
    case None => ""
    case Some(out) => Unlines(out)
  }

  lemma ResolvedPayload(ls: seq<string>, app: string)
    requires (forall l :: l in ls ==> '\n' !in l) && Exact(ls) && RegionLines(ls, app, false, []).Some?
    ensures var r := RegionLines(ls, app, false, []).value;
      Payload(Resolve(ls, app)) == Terminated(r) && forall l :: l in r ==> '\n' !in l
  {
    ResolvedShape(ls, app);
    PayloadOfLines(RegionLines(ls, app, false, []).value);
  }

  /** A region of one file among the lines printed of another. */
  lemma MatchMeansSame(disk: seq<string>, app: string, ls: seq<string>)
    requires (forall l :: l in disk || l in ls ==> '\n' !in l) && Exact(disk) && Exact(ls) && ValidName(app)
    requires Terminated(Printed(disk, app)) == Payload(Resolve(ls, app))
    ensures Resolve(disk, app) == Resolve(ls, app)
  {
    hide MarkOf, ValidName, RegionTail;
    var printed := Printed(disk, app);
    PrintedAreLines(disk, BEGIN_PREFIX + app, END_PREFIX + app, false);
    match RegionLines(ls, app, false, []) {
      case None =>
        assert Terminated(printed) == Terminated([]);
        TerminatedInjective(printed, []);
        NothingPrinted(disk, app, []);
      case Some(out) =>
        ResolvedPayload(ls, app);
        TerminatedInjective(printed, out);
        ResolvedShape(ls, app);
        PrintedIsResolved(disk, app, out);
    }
  }

  // ---- what reading does to a region ----

  /** Reading cuts off lines without text, and white space at the end of the last
      one with some. */
  lemma {:induction false} TrimmedShape(ls: seq<string>) returns (n: nat)
    requires ls != []
    ensures n < |ls| && TrimLinesRight(ls) == ls[..n] + [TrimRight(ls[n], IsSpace)]
    ensures forall l :: l in ls[n + 1..] ==> TrimRight(l, IsSpace) == ""
  {
    hide TrimRight;
    if |ls| > 1 && TrimRight(Last(ls), IsSpace) == "" {
      n := TrimmedShape(Front(ls));
      assert ls[n + 1..] == Front(ls)[n + 1..] + [Last(ls)];
      assert Front(ls)[..n] == ls[..n];
    } else {
      n := |ls| - 1;
    }
  }

  lemma BlankMark(l: string)
    requires TrimRight(l, IsSpace) == ""
    ensures MarkOf(l) == Plain
  {
    hide MarkOf, TrimRight;
    TrimmedMark(l);
    EmptyIsPlain();
  }

  lemma {:induction false} RegionPast(ls: seq<string>, app: string, active: bool, out: seq<string>)
    requires NoMarkers(ls)
    ensures RegionLines(ls, app, active, out) == None
    decreases |ls|
  {
    hide MarkOf;
    if ls != [] {
      assert ls[0] in ls && forall l :: l in ls[1..] ==> l in ls;
      RegionPast(ls[1..], app, active, out);
      RegionPast(ls[1..], app, active, out + [ls[0]]);
    }
  }

  /** A region but for white space at its end. */
  predicate SameButEnd(c: Option<seq<string>>, r: Option<seq<string>>, app: string) {
    && (c.Some? <==> r.Some?)
    && (r.Some? ==>
          && r.value != [] && MarkOf(Last(r.value)) == End(app)
          && (c.value == r.value || c.value == Front(r.value) + [TrimRight(Last(r.value), IsSpace)]))
  }

  lemma {:induction false} RegionButEnd(a: seq<string>, x: string, rest: seq<string>, app: string, active: bool,
                                        out: seq<string>)
    requires NoMarkers(rest)
    ensures SameButEnd(RegionLines(a + [TrimRight(x, IsSpace)], app, active, out),
      RegionLines(a + [x] + rest, app, active, out), app)
    decreases |a|
  {
    hide MarkOf, TrimRight;
    var t := TrimRight(x, IsSpace);
    if a == [] {
      TrimmedMark(x);
      assert a + [x] + rest == [x] + rest && ([x] + rest)[1..] == rest && a + [t] == [t] && [t][1..] == [];
      RegionPast(rest, app, active, out);
      RegionPast(rest, app, true, out + [x]);
      RegionPast([], app, active, out);
      RegionPast([], app, true, out + [t]);
      assert Front(out + [x]) == out && Last(out + [x]) == x;
    } else {
      assert (a + [x] + rest)[1..] == a[1..] + [x] + rest && (a + [t])[1..] == a[1..] + [t];
      RegionButEnd(a[1..], x, rest, app, active, out);
      RegionButEnd(a[1..], x, rest, app, active, out + [a[0]]);
      RegionButEnd(a[1..], x, rest, app, true, out);
      RegionButEnd(a[1..], x, rest, app, true, out + [a[0]]);
      assert Front(out + [a[0]]) == out && Last(out + [a[0]]) == a[0];
    }
  }

  lemma {:induction false} RegionMembers(ls: seq<string>, app: string, active: bool, out: seq<string>)
    ensures var r := RegionLines(ls, app, active, out); r.Some? ==> forall l :: l in r.value ==> l in out || l in ls
    decreases |ls|
  {
    hide MarkOf;
    if ls != [] {
      assert ls[0] in ls && forall l :: l in ls[1..] ==> l in ls;
      RegionMembers(ls[1..], app, active, out);
      RegionMembers(ls[1..], app, active, out + [ls[0]]);
      RegionMembers(ls[1..], app, true, out);
      RegionMembers(ls[1..], app, true, out + [ls[0]]);
    }
  }

  function Client(text: string, app: string): Option<seq<string>> {
    RegionLines(TrimLinesRight(LinesOf(text)), app, false, [])
  }

  lemma ResolvedIs(text: string, app: string)
    ensures Resolved(text, app) == match Client(text, app) case None => "" case Some(out) => Unlines(out)
  {
    hide TrimLinesRight, TrimRight;
    ServerFileIs(text);
    SplitTrimSpaceRight(text);
  }

  lemma DiskAnd(text: string)
    ensures LinesOf(text) == if Unended(text) then DiskLines(text) else DiskLines(text) + [""]
    ensures forall l :: l in DiskLines(text) ==> '\n' !in l
    ensures Unended(text) ==> DiskLines(text) != [] && Last(DiskLines(text)) != ""
  {
    hide LinesOf;
    LinesOfText(text);
  }

  /** The region of the file as it is read, and of the file as it is. */
  lemma ClientRegion(text: string, app: string)
    ensures SameButEnd(Client(text, app), RegionLines(DiskLines(text), app, false, []), app)
    ensures var r := RegionLines(DiskLines(text), app, false, []);
      r.Some? ==> forall l :: l in r.value ==> l in DiskLines(text)
  {
    hide MarkOf, TrimLinesRight, TrimRight, LinesOf;
    DiskAnd(text);
    var ls, d := LinesOf(text), DiskLines(text);
    RegionMembers(d, app, false, []);
    var n := TrimmedShape(ls);
    forall l | l in ls[n + 1..] ensures MarkOf(l) == Plain {
      BlankMark(l);
    }
    EmptyIsPlain();
    if n < |d| {
      var rest := d[n + 1..];
      assert forall l :: l in rest ==> l in ls[n + 1..] by {
        assert rest <= ls[n + 1..];
      }
      assert d == ls[..n] + [ls[n]] + rest;
      RegionButEnd(ls[..n], ls[n], rest, app, false, []);
    } else {
      assert n == |d| && ls[n] == "" && ls[..n] == d;
      RegionButEnd(d, "", [], app, false, []);
      NothingMore(d, app, false, []);
      assert d + [""] + [] == d + [""];
      assert TrimRight("", IsSpace) == "" by { EmptyTrimsRight(); }
    }
  }

  lemma EmptyTrimsRight()
    ensures TrimRight("", IsSpace) == ""
  {
  }

  /** An empty line more changes no region. */
  lemma {:induction false} NothingMore(ls: seq<string>, app: string, active: bool, out: seq<string>)
    ensures RegionLines(ls + [""], app, active, out) == RegionLines(ls, app, active, out)
    decreases |ls|
  {
    hide MarkOf;
    if ls == [] {
      EmptyIsPlain();
      assert ls + [""] == [""] && [""][1..] == [];
    } else {
      assert (ls + [""])[1..] == ls[1..] + [""];
      NothingMore(ls[1..], app, active, out);
      NothingMore(ls[1..], app, active, out + [ls[0]]);
      NothingMore(ls[1..], app, true, out);
      NothingMore(ls[1..], app, true, out + [ls[0]]);
    }
  }

  lemma RenderedEnds(app: string)
    requires ValidName(app)
    ensures TrimRight(END_PREFIX + app, IsSpace) == END_PREFIX + app
  {
    var l := END_PREFIX + app;
    assert l[|l| - 1] == app[|app| - 1];
  }

  /** With exact markers reading takes nothing from a region. */
  lemma ExactResolved(text: string, app: string)
    requires Exact(DiskLines(text)) && ValidName(app)
    ensures Resolved(text, app) == Resolve(DiskLines(text), app)
  {
    hide MarkOf, ValidName, TrimRight, TrimLinesRight, LinesOf, Unlines;
    ResolvedIs(text, app);
    ClientRegion(text, app);
    RenderedEnds(app);
    var r := RegionLines(DiskLines(text), app, false, []);
    if r.Some? {
      assert Last(r.value) in r.value;
      assert Front(r.value) + [Last(r.value)] == r.value;
    }
  }

  // ---- a passing check ----

  /** A region some client can have resolved: read from a file with exact markers. */
  ghost predicate Resolvable(r: string, app: string) {
    exists t :: Exact(DiskLines(t)) && r == Resolved(t, app)
  }

  lemma AbsentIsResolvable(app: string)
    requires ValidName(app)
    ensures Resolvable("", app)
  {
    hide MarkOf, ValidName, Resolved;
    SplitEmpty();
    assert DiskLines("") == [];
    ExactResolved("", app);
  }

  lemma OpenEnds(text: string, app: string)
    requires OpenAtEnd(text, app)
    ensures var t := SedText(text, app); t != "" && t[|t| - 1] != '\n'
  {
    hide LinesOf, PrintsLast;
    var d := DiskLines(text);
    DiskAnd(text);
    LastPrinted(d, BEGIN_PREFIX + app, END_PREFIX + app, false);
    TerminatedEnd(Printed(d, app));
    var last := Last(d);
    assert last[|last| - 1] in last;
  }

  /** A check is passed only by whole lines. */
  lemma PassEndsInNewline(text: string, app: string, r: string)
    requires SedText(text, app) == Payload(r)
    ensures !OpenAtEnd(text, app)
  {
    hide SedText, OpenAtEnd;
    if OpenAtEnd(text, app) {
      OpenEnds(text, app);
    }
  }

  lemma {:induction false} LastPrinted(ls: seq<string>, begin: string, end: string, inRange: bool)
    requires PrintsLast(ls, begin, end, inRange)
    ensures Last(SedPrint(ls, begin, end, inRange)) == Last(ls)
  {
    if |ls| > 1 {
      LastPrinted(ls[1..], begin, end, if inRange then ls[0] != end else ls[0] == begin);
    } else {
      assert ls[1..] == [];
    }
  }

  /** Without its last newline, text ends in its last line. */
  lemma {:induction false} TerminatedEnd(ls: seq<string>)
    requires ls != [] && Last(ls) != ""
    ensures var t, last := Terminated(ls), Last(ls); |t| > |last| && t[|t| - 2] == last[|last| - 1]
  {
    if |ls| > 1 {
      TerminatedEnd(ls[1..]);
      var rest := Terminated(ls[1..]);
      assert Terminated(ls) == ls[0] + "\n" + rest;
    } else {
      assert ls[1..] == [];
      assert Terminated(ls) == ls[0] + "\n";
    }
  }

  /** One acceptable region against the file. */
  lemma PassMeansSame(text: string, app: string, r: string)
    requires Exact(DiskLines(text)) && ValidName(app) && Resolvable(r, app)
    requires SedText(text, app) == Payload(r)
    ensures Resolved(text, app) == r
  {
    hide MarkOf, ValidName, LinesOf, Exact, DiskLines, Printed, Terminated, Resolved, OpenAtEnd;
    var t :| Exact(DiskLines(t)) && r == Resolved(t, app);
    ExactResolved(t, app);
    ExactResolved(text, app);
    PassEndsInNewline(text, app, r);
    DiskAnd(t);
    DiskAnd(text);
    MatchMeansSame(DiskLines(text), app, DiskLines(t));
  }

  /** A commit under the compare-and-swap passes only if the region on disk is
      one its caller resolved, or is absent when it resolved none. */
  lemma CasPassesOnlyOnResolved(text: string, app: string, acceptable: seq<string>)
    requires Exact(DiskLines(text)) && ValidName(app)
    requires forall r :: r in acceptable ==> Resolvable(r, app)
    requires CasPasses(text, app, acceptable)
    ensures Resolved(text, app) in if acceptable == [] then [""] else acceptable
  {
    hide MarkOf, SedText, ValidName, Exact, DiskLines, Resolved;
    if acceptable == [] {
      AbsentIsResolvable(app);
      PassMeansSame(text, app, "");
    } else {
      var r :| r in acceptable && SedText(text, app) == Payload(r);
      PassMeansSame(text, app, r);
    }
  }

  // ---- a region without an end ----

  /** Begun and never ended. */
  ghost predicate Unterminated(ls: seq<string>, app: string) {
    && (exists i :: 0 <= i < |ls| && ls[i] == BEGIN_PREFIX + app)
    && forall i :: 0 <= i < |ls| ==> MarkOf(ls[i]) != End(app)
  }

  lemma {:induction false} PrintsSomething(ls: seq<string>, begin: string, end: string, i: nat)
    requires i < |ls| && ls[i] == begin
    ensures SedPrint(ls, begin, end, false) != []
  {
    if ls[0] != begin {
      PrintsSomething(ls[1..], begin, end, i - 1);
    }
  }

  lemma {:induction false} NoEndNoRegion(ls: seq<string>, app: string, active: bool, out: seq<string>)
    requires forall i :: 0 <= i < |ls| ==> MarkOf(ls[i]) != End(app)
    ensures RegionLines(ls, app, active, out) == None
    decreases |ls|
  {
    hide MarkOf;
    if ls != [] {
      NoEndNoRegion(ls[1..], app, active, out);
      NoEndNoRegion(ls[1..], app, active, out + [ls[0]]);
      NoEndNoRegion(ls[1..], app, true, out);
      NoEndNoRegion(ls[1..], app, true, out + [ls[0]]);
    }
  }

  /** A region that is never ended is always refused. */
  lemma UnterminatedIsRefused(text: string, app: string, acceptable: seq<string>)
    requires Exact(DiskLines(text)) && ValidName(app) && Unterminated(DiskLines(text), app)
    requires forall r :: r in acceptable ==> Resolvable(r, app)
    ensures !CasPasses(text, app, acceptable)
  {
    hide MarkOf, ValidName, SedPrint, LinesOf, DiskLines, Exact;
    if CasPasses(text, app, acceptable) {
      var d := DiskLines(text);
      var i :| 0 <= i < |d| && d[i] == BEGIN_PREFIX + app;
      PrintsSomething(d, BEGIN_PREFIX + app, END_PREFIX + app, i);
      CasPassesOnlyOnResolved(text, app, acceptable);
      var r :| r in (if acceptable == [] then [""] else acceptable) && SedText(text, app) == Payload(r);
      assert Resolvable(r, app) by { AbsentIsResolvable(app); }
      PassMeansSame(text, app, r);
      PassEndsInNewline(text, app, r);
      ExactResolved(text, app);
      NoEndNoRegion(d, app, false, []);
      assert false;
    }
  }
}
