/** Exactly when the client and the commit command read the same region, and what
    a rolled back file does to the compare-and-swap (internal/caddy/caddy.go). */
module RouteCasExact {
  import opened Wrappers
  import opened Text
  import opened TextLines
  import opened Regions
  import opened RegionLaws
  import opened RegionEdit
  import opened RouteCas

  // ---- on lines with exact markers ----

  lemma {:induction false} SedAgrees(st: Scan, ls: seq<string>, app: string, out: seq<string>)
    requires st.Scan? && ScanLines(st, ls).Scan? && ScanLines(st, ls).inside == None
    requires Exact(ls) && ValidName(app)
    ensures var printed := SedPrint(ls, BEGIN_PREFIX + app, END_PREFIX + app, st.inside == Some(app));
      if st.inside == Some(app) then RegionLines(ls, app, true, out) == Some(out + printed)
      else if app in st.regions then printed == []
      else RegionLines(ls, app, false, out) == if printed == [] then None else Some(out + printed)
    decreases |ls|
  {
    hide MarkOf, ValidName;
    MarksDiffer(app);
    if ls != [] {
      var l, next := ls[0], ScanStep(st, ls[0]);
      assert l in ls && forall x :: x in ls[1..] ==> x in ls;
      if next.Malformed? {
        MalformedStays(ls[1..]);
        assert false;
      } else {
        SedAgrees(next, ls[1..], app, out);
        SedAgrees(next, ls[1..], app, out + [l]);
        var rest := SedPrint(ls[1..], BEGIN_PREFIX + app, END_PREFIX + app, next.inside == Some(app));
        assert out + [l] + rest == out + ([l] + rest);
        if MarkOf(l) == End(app) {
          assert l == END_PREFIX + app && rest == [];
          assert [l] + rest == [l];
        } else if MarkOf(l) == Begin(app) {
          assert l == BEGIN_PREFIX + app;
        } else {
          assert l != BEGIN_PREFIX + app && l != END_PREFIX + app;
        }
      }
    }
  }

  // ---- exactly when the two readings agree ----

  /** The end line of an open region is as rendered, or is the last of the file. */
  ghost predicate EndFits(ls: seq<string>, app: string) {
    exists j :: 0 <= j < |ls| && MarkOf(ls[j]) == End(app) && NoMarkers(ls[..j])
      && (ls[j] == END_PREFIX + app || j == |ls| - 1)
  }

  ghost predicate FitsAt(ls: seq<string>, app: string, i: nat) {
    i < |ls| && ls[i] == BEGIN_PREFIX + app && EndFits(ls[i + 1..], app)
  }

  /** The app has no region, or its begin line is as rendered and its end line
      fits. */
  ghost predicate AsRendered(ls: seq<string>, app: string) {
    (exists i :: 0 <= i < |ls| && MarkOf(ls[i]) == Begin(app)) ==> exists i: nat :: FitsAt(ls, app, i)
  }

  lemma EndFitsLater(l: string, rest: seq<string>, app: string)
    requires MarkOf(l) == Plain
    ensures EndFits([l] + rest, app) <==> EndFits(rest, app)
  {
    hide MarkOf;
    var ls := [l] + rest;
    if EndFits(rest, app) {
      var j :| 0 <= j < |rest| && MarkOf(rest[j]) == End(app) && NoMarkers(rest[..j]) &&
        (rest[j] == END_PREFIX + app || j == |rest| - 1);
      assert ls[..j + 1] == [l] + rest[..j];
      assert ls[j + 1] == rest[j];
    }
    if EndFits(ls, app) {
      var j :| 0 <= j < |ls| && MarkOf(ls[j]) == End(app) && NoMarkers(ls[..j]) &&
        (ls[j] == END_PREFIX + app || j == |ls| - 1);
      assert ls[..j] == [l] + rest[..j - 1];
      assert ls[j] == rest[j - 1];
    }
  }

  lemma FirstIsPlain(ls: seq<string>, j: nat)
    requires j <= |ls| && NoMarkers(ls[..j])
    ensures j > 0 ==> MarkOf(ls[0]) == Plain
  {
    hide MarkOf;
    if j > 0 {
      assert ls[0] == ls[..j][0];
    }
  }

  lemma EndFitsHere(l: string, rest: seq<string>, app: string)
    requires MarkOf(l) == End(app)
    ensures EndFits([l] + rest, app) <==> l == END_PREFIX + app || rest == []
  {
    hide MarkOf;
    var ls := [l] + rest;
    if EndFits(ls, app) {
      var j :| 0 <= j < |ls| && MarkOf(ls[j]) == End(app) && NoMarkers(ls[..j]) &&
        (ls[j] == END_PREFIX + app || j == |ls| - 1);
      FirstIsPlain(ls, j);
    }
    if l == END_PREFIX + app || rest == [] {
      assert ls[0] == l && ls[..0] == [];
    }
  }

  /** Once an app's region is closed, or outside it, no line begins one. */
  lemma {:induction false} NoneBegins(st: Scan, ls: seq<string>, app: string)
    requires st.Scan? && ScanLines(st, ls).Scan? && ScanLines(st, ls).inside == None && ValidName(app)
    requires app in st.regions || st.inside == Some(app)
    ensures forall i :: 0 <= i < |ls| ==> MarkOf(ls[i]) != Begin(app)
    ensures SedPrint(ls, BEGIN_PREFIX + app, END_PREFIX + app, false) == []
    decreases |ls|
  {
    hide MarkOf, ValidName;
    MarksDiffer(app);
    if ls != [] {
      var next := ScanStep(st, ls[0]);
      if next.Malformed? {
        MalformedStays(ls[1..]);
        assert false;
      } else {
        NoneBegins(next, ls[1..], app);
        assert forall i :: 0 < i < |ls| ==> ls[i] == ls[1..][i - 1];
      }
    }
  }

  /** In the app's region: the client stops at the end line, the command only at
      one that is as rendered. */
  lemma {:induction false} InsideAgrees(st: Scan, ls: seq<string>, app: string, out: seq<string>)
    requires st.Scan? && ScanLines(st, ls).Scan? && ScanLines(st, ls).inside == None
    requires st.inside == Some(app) && ValidName(app)
    ensures var r := RegionLines(ls, app, true, out);
      && r.Some? && out <= r.value && (forall l :: l in r.value ==> l in out || l in ls)
      && (SedPrint(ls, BEGIN_PREFIX + app, END_PREFIX + app, true) == r.value[|out|..] <==> EndFits(ls, app))
    decreases |ls|
  {
    hide MarkOf, ValidName, EndFits;
    MarksDiffer(app);
    if ls != [] {
      var l, rest, next := ls[0], ls[1..], ScanStep(st, ls[0]);
      assert ls == [l] + rest;
      if next.Malformed? {
        MalformedStays(rest);
        assert false;
      } else if MarkOf(l) == Plain {
        InsideAgrees(next, rest, app, out + [l]);
        EndFitsLater(l, rest, app);
        var r := RegionLines(ls, app, true, out).value;
        assert r[|out|..] == [l] + r[|out| + 1..];
      } else {
        NoneBegins(next, rest, app);
        EndFitsHere(l, rest, app);
        assert (out + [l])[|out|..] == [l];
        assert rest != [] ==> SedPrint(rest, BEGIN_PREFIX + app, END_PREFIX + app, true) != [];
      }
    }
  }

  lemma {:induction false} OutsideAgrees(st: Scan, ls: seq<string>, app: string)
    requires st.Scan? && ScanLines(st, ls).Scan? && ScanLines(st, ls).inside == None
    requires st.inside != Some(app) && app !in st.regions && ValidName(app)
    ensures var r, printed := RegionLines(ls, app, false, []),
      SedPrint(ls, BEGIN_PREFIX + app, END_PREFIX + app, false);
      && (r.Some? <==> exists i :: 0 <= i < |ls| && MarkOf(ls[i]) == Begin(app))
      && (r.Some? ==> r.value != [] && r.value[0] != "" && forall l :: l in r.value ==> l in ls)
      && ((if r.Some? then printed == r.value else printed == []) <==> AsRendered(ls, app))
    decreases |ls|
  {
    hide MarkOf, ValidName, EndFits;
    MarksDiffer(app);
    if ls != [] {
      var l, rest, next := ls[0], ls[1..], ScanStep(st, ls[0]);
      if next.Malformed? {
        MalformedStays(rest);
        assert false;
      } else if MarkOf(l) == Begin(app) {
        NoneBegins(next, rest, app);
        InsideAgrees(next, rest, app, [l]);
        BeginSpeaks(l);
        assert [] + [l] == [l];
        var r := RegionLines(ls, app, false, []).value;
        assert r == [l] + r[1..];
        OnlyBegin(l, rest, app);
        assert ls == [l] + rest;
        var inside := SedPrint(rest, BEGIN_PREFIX + app, END_PREFIX + app, true);
        assert [l] + inside == [l] + r[1..] ==> inside == ([l] + inside)[1..];
      } else {
        hide AsRendered;
        OutsideAgrees(next, rest, app);
        AsRenderedLater(l, rest, app);
        assert ls == [l] + rest;
        assert forall i :: 0 < i < |ls| ==> ls[i] == rest[i - 1];
        assert forall i :: 0 <= i < |rest| ==> rest[i] == ls[i + 1];
      }
    } else {
      EmptyAgrees(app);
    }
  }

  /** The first line begins the region, and no other does. */
  lemma OnlyBegin(l: string, rest: seq<string>, app: string)
    requires MarkOf(l) == Begin(app) && MarkOf(BEGIN_PREFIX + app) == Begin(app)
    requires forall i :: 0 <= i < |rest| ==> MarkOf(rest[i]) != Begin(app)
    ensures AsRendered([l] + rest, app) <==> l == BEGIN_PREFIX + app && EndFits(rest, app)
  {
    hide MarkOf, EndFits;
    var ls := [l] + rest;
    assert ls[0] == l && ls[0 + 1..] == rest;
    if i: nat :| FitsAt(ls, app, i) {
      assert i > 0 ==> ls[i] == rest[i - 1];
    }
    if l == BEGIN_PREFIX + app && EndFits(rest, app) {
      assert FitsAt(ls, app, 0);
    }
  }

  lemma EmptyAgrees(app: string)
    ensures RegionLines([], app, false, []) == None && AsRendered([], app)
  {
  }

  lemma BeginSpeaks(l: string)
    requires MarkOf(l) != Plain
    ensures l != ""
  {
    EmptyIsPlain();
  }

  lemma FitsLater(l: string, rest: seq<string>, app: string, i: nat)
    ensures FitsAt([l] + rest, app, i + 1) <==> FitsAt(rest, app, i)
  {
    hide EndFits;
    if i < |rest| {
      assert ([l] + rest)[i + 1 + 1..] == rest[i + 1..];
    }
  }

  lemma AsRenderedLater(l: string, rest: seq<string>, app: string)
    requires MarkOf(l) != Begin(app) && MarkOf(BEGIN_PREFIX + app) == Begin(app)
    ensures AsRendered([l] + rest, app) <==> AsRendered(rest, app)
  {
    hide MarkOf, EndFits;
    var ls := [l] + rest;
    assert forall i :: 0 <= i < |rest| ==> ls[i + 1] == rest[i];
    assert forall i :: 0 < i < |ls| ==> ls[i] == rest[i - 1];
    if i: nat :| FitsAt(ls, app, i) {
      assert i > 0;
      FitsLater(l, rest, app, i - 1);
    }
    if i: nat :| FitsAt(rest, app, i) {
      FitsLater(l, rest, app, i);
    }
  }

  // ---- where the printing stops ----

  /** Once its region is closed, the app has no marker left. */
  lemma {:induction false} ClosedStays(st: Scan, ls: seq<string>, app: string)
    requires st.Scan? && ScanLines(st, ls).Scan? && app in st.regions && st.inside != Some(app)
    ensures forall l :: l in ls ==> MarkOf(l) != Begin(app) && MarkOf(l) != End(app)
    decreases |ls|
  {
    hide MarkOf;
    if ls != [] {
      var next := ScanStep(st, ls[0]);
      if next.Malformed? {
        MalformedStays(ls[1..]);
        assert false;
      } else {
        ClosedStays(next, ls[1..], app);
      }
    }
  }

  /** The last line is the app's end line only in a file that ends its region
      there. */
  lemma {:induction false} EndIsOnce(st: Scan, ls: seq<string>, app: string)
    requires st.Scan? && ScanLines(st, ls).Scan? && app !in st.regions
    requires ls != [] && MarkOf(Last(ls)) == End(app)
    ensures forall l :: l in Front(ls) ==> MarkOf(l) != End(app)
    decreases |ls|
  {
    hide MarkOf;
    var next := ScanStep(st, ls[0]);
    if next.Malformed? {
      MalformedStays(ls[1..]);
      assert false;
    } else if |ls| > 1 {
      assert Last(ls) in ls[1..];
      if app in next.regions {
        ClosedStays(next, ls[1..], app);
        assert false;
      } else {
        EndIsOnce(next, ls[1..], app);
        assert Front(ls) == [ls[0]] + Front(ls[1..]);
      }
    }
  }

  lemma {:induction false} InsideEnds(st: Scan, ls: seq<string>, app: string, out: seq<string>)
    requires st.Scan? && ScanLines(st, ls).Scan? && ScanLines(st, ls).inside == None
    requires st.inside == Some(app) && ValidName(app)
    ensures var r, begin, end := RegionLines(ls, app, true, out), BEGIN_PREFIX + app, END_PREFIX + app;
      && r.Some? && out <= r.value && |out| < |r.value| && ls != []
      && r.value[|out|..] <= SedPrint(ls, begin, end, true)
      && (MarkOf(Last(ls)) == End(app) ==> PrintsLast(ls, begin, end, true) && Last(r.value) == Last(ls))
      && (SedPrint(ls, begin, end, true) == r.value[|out|..] && PrintsLast(ls, begin, end, true) ==>
            MarkOf(Last(ls)) == End(app))
    decreases |ls|
  {
    hide MarkOf, ValidName;
    MarksDiffer(app);
    if ls != [] {
      var l, rest, next := ls[0], ls[1..], ScanStep(st, ls[0]);
      if next.Malformed? {
        MalformedStays(rest);
        assert false;
      } else if MarkOf(l) == Plain {
        InsideEnds(next, rest, app, out + [l]);
        var r := RegionLines(ls, app, true, out).value;
        assert r[|out|..] == [l] + r[|out| + 1..];
        var printed := SedPrint(rest, BEGIN_PREFIX + app, END_PREFIX + app, true);
        assert SedPrint(ls, BEGIN_PREFIX + app, END_PREFIX + app, true) == [l] + printed;
        assert ([l] + printed)[1..] == printed && ([l] + r[|out| + 1..])[1..] == r[|out| + 1..];
      } else {
        assert (out + [l])[|out|..] == [l];
        if rest != [] {
          ClosedStays(next, rest, app);
          assert Last(ls) == Last(rest) && Last(rest) in rest;
          StopsAt(l, rest, app);
        }
      }
    }
  }

  /** If nothing follows the end line in print, the last line does not. */
  lemma StopsAt(l: string, rest: seq<string>, app: string)
    requires rest != []
    ensures var begin, end := BEGIN_PREFIX + app, END_PREFIX + app;
      SedPrint([l] + rest, begin, end, true) == [l] ==> !PrintsLast([l] + rest, begin, end, true)
  {
    var begin, end := BEGIN_PREFIX + app, END_PREFIX + app;
    assert ([l] + rest)[1..] == rest;
    var more := SedPrint(rest, begin, end, l != end);
    assert SedPrint([l] + rest, begin, end, true) == [l] + more;
    assert [l] + more == [l] ==> more == [];
  }

  lemma {:induction false} OutsideEnds(st: Scan, ls: seq<string>, app: string)
    requires st.Scan? && ScanLines(st, ls).Scan? && ScanLines(st, ls).inside == None
    requires st.inside != Some(app) && app !in st.regions && ValidName(app)
    ensures var r, begin, end := RegionLines(ls, app, false, []), BEGIN_PREFIX + app, END_PREFIX + app;
      var printed := SedPrint(ls, begin, end, false);
      && (if r.None? then printed == [] else r.value != [] && (printed != [] ==> r.value <= printed))
      && (ls != [] && MarkOf(Last(ls)) == End(app) ==>
            && r.Some? && Last(r.value) == Last(ls) && (printed != [] ==> PrintsLast(ls, begin, end, false)))
      && (r.Some? && printed == r.value && PrintsLast(ls, begin, end, false) ==> MarkOf(Last(ls)) == End(app))
    decreases |ls|
  {
    hide MarkOf, ValidName;
    MarksDiffer(app);
    if ls != [] {
      var l, rest, next := ls[0], ls[1..], ScanStep(st, ls[0]);
      if next.Malformed? {
        MalformedStays(rest);
        assert false;
      } else if MarkOf(l) == Begin(app) {
        NoneBegins(next, rest, app);
        InsideEnds(next, rest, app, [l]);
        assert [] + [l] == [l];
        var r := RegionLines(ls, app, false, []).value;
        assert r == [l] + r[1..];
        var printed := SedPrint(rest, BEGIN_PREFIX + app, END_PREFIX + app, true);
        assert ([l] + printed)[1..] == printed;
      } else {
        OutsideEnds(next, rest, app);
      }
    }
  }

  /** Printing stops at a rendered end line or with the file. */
  lemma {:induction false} PrintStops(ls: seq<string>, begin: string, end: string, inRange: bool)
    requires SedPrint(ls, begin, end, inRange) != []
    ensures var last := Last(SedPrint(ls, begin, end, inRange)); last == end || last == Last(ls)
  {
    var rest, now := ls[1..], if inRange then ls[0] != end else ls[0] == begin;
    if SedPrint(rest, begin, end, now) != [] {
      PrintStops(rest, begin, end, now);
    }
  }

  lemma {:induction false} LastRegion(a: seq<string>, x: string, y: string, app: string, active: bool, out: seq<string>)
    requires MarkOf(x) == End(app) && MarkOf(y) == End(app) && forall l :: l in a ==> MarkOf(l) != End(app)
    ensures var r, c := RegionLines(a + [x], app, active, out), RegionLines(a + [y], app, active, out);
      (r.Some? <==> c.Some?) && (r.Some? ==> r.value != [] && c.value == Front(r.value) + [y])
    decreases |a|
  {
    hide MarkOf;
    if a == [] {
      assert a + [x] == [x] && a + [y] == [y];
      assert Front(out + [x]) == out;
    } else {
      assert (a + [x])[1..] == a[1..] + [x] && (a + [y])[1..] == a[1..] + [y];
      assert a[0] in a && forall l :: l in a[1..] ==> l in a;
      LastRegion(a[1..], x, y, app, active, out);
      LastRegion(a[1..], x, y, app, active, out + [a[0]]);
      LastRegion(a[1..], x, y, app, true, out);
      LastRegion(a[1..], x, y, app, true, out + [a[0]]);
    }
  }

  // ---- on a well-formed file ----

  lemma DiskWellFormed(text: string)
    requires WellFormed(LinesOf(text))
    ensures WellFormed(DiskLines(text))
  {
    hide MarkOf, LinesOf;
    DiskAnd(text);
    EmptyIsPlain();
    var d := DiskLines(text);
    ScanConcat(START, d, [""]);
    ScanOne(ScanLines(START, d), "");
  }

  ghost predicate EndsItsFile(text: string, app: string) {
    DiskLines(text) != [] && MarkOf(Last(DiskLines(text))) == End(app)
  }

  /** If the app's end line is the last of the file, a newline ends it, and no
      white space comes before that. */
  ghost predicate LastFits(text: string, app: string) {
    EndsItsFile(text, app) ==>
      var last := Last(DiskLines(text)); !Unended(text) && TrimRight(last, IsSpace) == last
  }

  /** Where the end line is the last, reading trims it. */
  lemma ClientOfLast(text: string, app: string)
    requires WellFormed(LinesOf(text)) && EndsItsFile(text, app)
    ensures var r, last := RegionLines(DiskLines(text), app, false, []), Last(DiskLines(text));
      r.Some? ==> r.value != [] && Client(text, app) == Some(Front(r.value) + [TrimRight(last, IsSpace)])
  {
    hide MarkOf, TrimRight, LinesOf, TrimLinesRight, WellFormed;
    DiskAnd(text);
    DiskWellFormed(text);
    var d := DiskLines(text);
    var last := Last(d);
    assert d == Front(d) + [last];
    OnceInFile(d, app);
    TrimmedMark(last);
    LastRegion(Front(d), last, TrimRight(last, IsSpace), app, false, []);
    SaidLast(d);
  }

  lemma OnceInFile(d: seq<string>, app: string)
    requires WellFormed(d) && d != [] && MarkOf(Last(d)) == End(app)
    ensures forall l :: l in Front(d) ==> MarkOf(l) != End(app)
  {
    hide MarkOf;
    EndIsOnce(START, d, app);
  }

  lemma SaidLast(d: seq<string>)
    requires d != [] && MarkOf(Last(d)) != Plain
    ensures TrimLinesRight(d) == Front(d) + [TrimRight(Last(d), IsSpace)] == TrimLinesRight(d + [""])
  {
    hide MarkOf, TrimRight;
    if TrimRight(Last(d), IsSpace) == "" {
      BlankMark(Last(d));
    }
    TrimLinesRightSnoc(' ', d);
  }

  lemma ClientPayload(text: string, app: string)
    requires Client(text, app).Some?
    ensures var c := Client(text, app).value;
      Payload(Resolved(text, app)) == Terminated(c) && c != [] && forall l :: l in c ==> '\n' !in l
  {
    hide MarkOf, TrimRight, LinesOf, TrimLinesRight, Unlines;
    ResolvedIs(text, app);
    ClientRegion(text, app);
    DiskAnd(text);
    var r, c := RegionLines(DiskLines(text), app, false, []).value, Client(text, app).value;
    TrimmedMark(Last(r));
    BeginSpeaks(Last(c));
    assert Last(r) in r;
    assert forall x :: x in TrimRight(Last(r), IsSpace) ==> x in Last(r);
    assert forall l :: l in c ==> l in r || l == TrimRight(Last(r), IsSpace);
    PayloadOfLines(c);
  }

  /** On a well-formed file the commit command prints the region the client reads
      if and only if the app has none, or its begin line is as rendered and its
      end line is as rendered with another line after it, or is the last line,
      ended by a newline and without white space at its end. An edit that expects
      no region passes if and only if no begin line is as rendered, whatever the
      client reads. */
  lemma CasAgreesIff(text: string, app: string)
    requires WellFormed(LinesOf(text)) && ValidName(app)
    ensures SedText(text, app) == Payload(Resolved(text, app)) <==>
      AsRendered(DiskLines(text), app) && LastFits(text, app)
    ensures CasPasses(text, app, []) <==> BEGIN_PREFIX + app !in DiskLines(text)
  {
    hide MarkOf, ValidName, AsRendered, LinesOf, DiskLines, WellFormed, LastFits, Resolved;
    DiskWellFormed(text);
    if SedText(text, app) == Payload(Resolved(text, app)) {
      AgreementFits(text, app);
    }
    if AsRendered(DiskLines(text), app) && LastFits(text, app) {
      FittingAgrees(text, app);
    }
    NonePasses(text, app);
  }

  lemma NonePasses(text: string, app: string)
    ensures CasPasses(text, app, []) <==> BEGIN_PREFIX + app !in DiskLines(text)
  {
    hide LinesOf, DiskLines, Unended;
    var d := DiskLines(text);
    if BEGIN_PREFIX + app in d {
      var i :| 0 <= i < |d| && d[i] == BEGIN_PREFIX + app;
      PrintsSomething(d, BEGIN_PREFIX + app, END_PREFIX + app, i);
      if CasPasses(text, app, []) {
        PassEndsInNewline(text, app, "");
      }
    } else {
      PlainPrintsNothing(d, BEGIN_PREFIX + app, END_PREFIX + app);
    }
  }

  lemma FileAgrees(text: string, app: string)
    requires WellFormed(LinesOf(text)) && ValidName(app)
    ensures var d := DiskLines(text);
      var r, printed := RegionLines(d, app, false, []), Printed(d, app);
      && (if r.None? then printed == [] else r.value != [] && (printed != [] ==> r.value <= printed))
      && (EndsItsFile(text, app) ==> r.Some? && Last(r.value) == Last(d) && (printed != [] ==>
            PrintsLast(d, BEGIN_PREFIX + app, END_PREFIX + app, false)))
      && (r.Some? && printed == r.value && PrintsLast(d, BEGIN_PREFIX + app, END_PREFIX + app, false) ==>
            EndsItsFile(text, app))
      && ((if r.Some? then printed == r.value else printed == []) <==> AsRendered(d, app))
  {
    hide MarkOf, ValidName, AsRendered, LinesOf, DiskLines;
    DiskWellFormed(text);
    OutsideAgrees(START, DiskLines(text), app);
    OutsideEnds(START, DiskLines(text), app);
  }

  lemma AgreementFits(text: string, app: string)
    requires WellFormed(LinesOf(text)) && ValidName(app) && SedText(text, app) == Payload(Resolved(text, app))
    ensures AsRendered(DiskLines(text), app) && LastFits(text, app)
  {
    hide MarkOf, ValidName, AsRendered, LinesOf, DiskLines, WellFormed, Resolved, TrimRight, PrintsLast;
    FileAgrees(text, app);
    ClientRegion(text, app);
    PassEndsInNewline(text, app, Resolved(text, app));
    var d := DiskLines(text);
    var r, printed := RegionLines(d, app, false, []), Printed(d, app);
    if r.Some? {
      ClientPayload(text, app);
      DiskAnd(text);
      PrintedAreLines(d, BEGIN_PREFIX + app, END_PREFIX + app, false);
      var c := Client(text, app).value;
      TerminatedInjective(printed, c);
      assert r.value == c;
      if EndsItsFile(text, app) {
        ClientOfLast(text, app);
        assert Last(c) == TrimRight(Last(d), IsSpace);
      }
    }
  }

  lemma FittingAgrees(text: string, app: string)
    requires WellFormed(LinesOf(text)) && ValidName(app) && AsRendered(DiskLines(text), app) && LastFits(text, app)
    ensures SedText(text, app) == Payload(Resolved(text, app))
  {
    hide MarkOf, ValidName, AsRendered, LinesOf, DiskLines, WellFormed, Resolved, TrimRight, PrintsLast;
    FileAgrees(text, app);
    ClientRegion(text, app);
    var d := DiskLines(text);
    var r, printed := RegionLines(d, app, false, []), Printed(d, app);
    if r.Some? {
      ClientPayload(text, app);
      RenderedEnds(app);
      PrintStops(d, BEGIN_PREFIX + app, END_PREFIX + app, false);
      var c := Client(text, app).value;
      assert Front(r.value) + [Last(r.value)] == r.value;
      assert c == r.value;
    } else {
      ResolvedIs(text, app);
      NothingPrintsLast(d, app);
    }
  }

  lemma NothingPrintsLast(d: seq<string>, app: string)
    requires Printed(d, app) == []
    ensures !PrintsLast(d, BEGIN_PREFIX + app, END_PREFIX + app, false)
  {
  }

  /** With exact markers, a caller that resolved what is on disk is let through if
      and only if the app's end line is not a last line without a newline. */
  lemma CasPassesOnResolved(text: string, app: string, acceptable: seq<string>)
    requires Exact(DiskLines(text)) && WellFormed(LinesOf(text)) && ValidName(app)
    requires Resolved(text, app) in if acceptable == [] then [""] else acceptable
    ensures CasPasses(text, app, acceptable) <==> !(Unended(text) && EndsItsFile(text, app))
  {
    hide MarkOf, ValidName, AsRendered, LinesOf, DiskLines, Resolved, TrimRight, PrintsLast;
    FileAgrees(text, app);
    DiskWellFormed(text);
    SedAgrees(START, DiskLines(text), app, []);
    var d := DiskLines(text);
    var r, printed := RegionLines(d, app, false, []), Printed(d, app);
    assert [] + printed == printed;
    if Unended(text) && EndsItsFile(text, app) {
      OpenIsRefused(text, app, acceptable);
    } else {
      RenderedEnds(app);
      assert d != [] ==> Last(d) in d;
      FittingAgrees(text, app);
    }
  }

  /** A region printed up to a last line without a newline is refused, whatever
      was resolved. */
  lemma OpenIsRefused(text: string, app: string, acceptable: seq<string>)
    requires WellFormed(LinesOf(text)) && ValidName(app) && Unended(text) && EndsItsFile(text, app)
    requires Printed(DiskLines(text), app) != []
    ensures !CasPasses(text, app, acceptable)
  {
    hide MarkOf, ValidName, AsRendered, LinesOf, DiskLines, WellFormed, SedText, Payload;
    FileAgrees(text, app);
    if CasPasses(text, app, acceptable) {
      var r :| SedText(text, app) == Payload(r);
      PassEndsInNewline(text, app, r);
    }
  }

  // ---- after a rollback ----

  lemma TrimmedIsUnended(text: string)
    requires TrimSpace(text) != ""
    ensures Unended(TrimSpace(text)) && DiskLines(TrimSpace(text)) == LinesOf(TrimSpace(text))
  {
    var s := TrimSpace(text);
    TrimEnds(text, IsSpace);
    assert s == s[..|s| - 1] + [s[|s| - 1]];
    SplitSnocChar(s[..|s| - 1], s[|s| - 1]);
  }

  /** A rollback leaves what was read, trimmed. If that ends with the app's
      region, every edit of the app under the compare-and-swap is refused from
      then on, even if what it resolved is what is there. */
  lemma TrimmedFileIsRefused(text: string, app: string, acceptable: seq<string>)
    requires WellFormed(LinesOf(text)) && ValidName(app)
    requires var ls := LinesOf(TrimSpace(text)); BEGIN_PREFIX + app in ls && MarkOf(Last(ls)) == End(app)
    ensures Resolved(TrimSpace(text), app) != "" && !CasPasses(TrimSpace(text), app, acceptable)
  {
    hide MarkOf, ValidName, LinesOf, TrimSpace, Resolved, WellFormed;
    var left := TrimSpace(text);
    TrimSpaceKeeps(text);
    if left == "" {
      SplitEmpty();
      EmptyIsPlain();
    }
    TrimmedIsUnended(text);
    var d := LinesOf(left);
    var i :| 0 <= i < |d| && d[i] == BEGIN_PREFIX + app;
    PrintsSomething(d, BEGIN_PREFIX + app, END_PREFIX + app, i);
    OpenIsRefused(left, app, acceptable);
    FileAgrees(left, app);
    ClientRegion(left, app);
    ClientPayload(left, app);
  }

  lemma {:induction false} LeftKeeps(a: seq<string>, x: string, b: seq<string>)
    requires TrimLeft(x, IsSpace) == x && x != ""
    ensures exists c :: TrimLinesLeft(a + [x] + b) == c + [x] + b
  {
    hide TrimLeft;
    var ls := a + [x] + b;
    if a == [] {
      assert ls == [x] + b && ls[1..] == b;
      assert TrimLinesLeft(ls) == [] + [x] + b;
    } else if TrimLeft(a[0], IsSpace) == "" {
      LeftKeeps(a[1..], x, b);
      assert ls[1..] == a[1..] + [x] + b;
    } else {
      assert ls[1..] == a[1..] + [x] + b;
      assert TrimLinesLeft(ls) == ([TrimLeft(a[0], IsSpace)] + a[1..]) + [x] + b;
    }
  }

  lemma ReadOfPut(updated: string, app: string, block: string)
    requires ValidName(app)
    ensures var ls := LinesOf(TrimSpace(PutBlock(updated, app, block)));
      BEGIN_PREFIX + app in ls && Last(ls) == END_PREFIX + app
  {
    hide MarkOf, ValidName, LinesOf, TrimSpace, PutBlock, TrimRight, TrimLeft, BodyOf, TrimRightLines;
    LinesOfPut(updated, app, block);
    SplitTrimSpace(PutBlock(updated, app, block));
    var begin, end, body := BEGIN_PREFIX + app, END_PREFIX + app, BodyOf(block);
    var a := TrimRightLines(LinesOf(updated)) + [""];
    PutParts(TrimRightLines(LinesOf(updated)), app, body);
    RenderedStarts(app);
    LeftKeeps(a, begin, body + [end] + [""]);
    var c :| TrimLinesLeft(a + [begin] + (body + [end] + [""])) == c + [begin] + (body + [end] + [""]);
    EndOfRead(c, begin, body, app);
  }

  lemma PutParts(before: seq<string>, app: string, body: seq<string>)
    ensures PutLines(before, app, body) ==
      before + [""] + [BEGIN_PREFIX + app] + (body + [END_PREFIX + app] + [""])
  {
  }

  lemma EndOfRead(c: seq<string>, begin: string, body: seq<string>, app: string)
    requires ValidName(app)
    ensures var end := END_PREFIX + app;
      var ls := TrimLinesRight(c + [begin] + (body + [end] + [""])); begin in ls && Last(ls) == end
  {
    hide MarkOf, ValidName, TrimRight, TrimLinesRight;
    var end := END_PREFIX + app;
    var d := c + [begin] + body + [end];
    assert c + [begin] + (body + [end] + [""]) == d + [""];
    MarksDiffer(app);
    RenderedEnds(app);
    SaidLast(d);
    assert Front(d) + [end] == d;
    assert begin in c + [begin];
  }

  /** An app whose route was the last to be written is in that case: the next
      edit of anyone that is rolled back locks it out. */
  lemma RollbackRefusesTheRoute(updated: string, app: string, block: string, acceptable: seq<string>)
    requires WellFormed(LinesOf(updated)) && ValidName(app) && app !in RegionsOf(LinesOf(updated))
    requires NoMarkers(LinesOf(block))
    ensures var left := TrimSpace(PutBlock(updated, app, block));
      Resolved(left, app) != "" && !CasPasses(left, app, acceptable)
  {
    hide MarkOf, ValidName, LinesOf, TrimSpace, WellFormed, RegionsOf, PutBlock, NoMarkers, BodyOf, Resolved, CasPasses;
    PutBlockKeeps(updated, app, block);
    ReadOfPut(updated, app, block);
    MarksDiffer(app);
    TrimmedFileIsRefused(PutBlock(updated, app, block), app, acceptable);
  }

  lemma RenderedStarts(app: string)
    ensures TrimLeft(BEGIN_PREFIX + app, IsSpace) == BEGIN_PREFIX + app && BEGIN_PREFIX + app != ""
  {
    assert (BEGIN_PREFIX + app)[0] == '#';
  }

  // ---- why markers must be exact ----

  lemma {:induction false} PlainPrintsNothing(ls: seq<string>, begin: string, end: string)
    requires begin !in ls
    ensures SedPrint(ls, begin, end, false) == []
  {
    if ls != [] {
      assert ls[0] in ls && forall l :: l in ls[1..] ==> l in ls;
      PlainPrintsNothing(ls[1..], begin, end);
    }
  }

  lemma {:induction false} RegionOfPlain(body: seq<string>, app: string, end: string, out: seq<string>)
    requires NoMarkers(body) && MarkOf(end) == End(app)
    ensures RegionLines(body + [end], app, true, out) == Some(out + body + [end])
    decreases |body|
  {
    hide MarkOf;
    if body == [] {
      assert body + [end] == [end] && out + body == out;
    } else {
      assert (body + [end])[1..] == body[1..] + [end] && body[0] in body;
      RegionOfPlain(body[1..], app, end, out + [body[0]]);
      assert out + [body[0]] + body[1..] == out + body;
    }
  }

  lemma IndentedIsMark(app: string)
    requires ValidName(app)
    ensures var first := "\t" + BEGIN_PREFIX + app; MarkOf(first) == Begin(app) && first != BEGIN_PREFIX + app
    ensures END_PREFIX + app != BEGIN_PREFIX + app
  {
    hide MarkOf, ValidName, Trim;
    var begin, first := BEGIN_PREFIX + app, "\t" + BEGIN_PREFIX + app;
    MarksDiffer(app);
    assert first == "\t" + begin + "" && first[0] == '\t' && begin[0] == '#';
    TrimAround("\t", begin, "", IsSpace);
    MarkOfTrimmed(first, begin);
  }

  lemma DiskOfTerminated(ls: seq<string>)
    requires forall l :: l in ls ==> '\n' !in l
    ensures DiskLines(Terminated(ls)) == ls && LinesOf(Terminated(ls)) == ls + [""]
  {
    hide LinesOf;
    TerminatedLines(ls);
    assert Front(ls + [""]) == ls && Last(ls + [""]) == "";
  }

  lemma IndentedLines(app: string, body: seq<string>)
    requires ValidName(app) && NoMarkers(body) && forall l :: l in body ==> '\n' !in l
    ensures var disk := ["\t" + BEGIN_PREFIX + app] + (body + [END_PREFIX + app]);
      && BEGIN_PREFIX + app !in disk && (forall l :: l in disk ==> '\n' !in l)
      && RegionLines(disk, app, false, []) == Some(disk) && TrimLinesRight(disk + [""]) == disk
  {
    hide MarkOf, ValidName, TrimRight, TrimLinesRight, NoMarkers;
    var first, end := "\t" + BEGIN_PREFIX + app, END_PREFIX + app;
    MarksDiffer(app);
    IndentedIsMark(app);
    ValidNameTrimmed(app);
    var disk := [first] + (body + [end]);
    assert disk[1..] == body + [end];
    assert forall l :: l in disk ==> l == first || l in body || l == end;
    NotBegins(body, app);
    RegionOfPlain(body, app, end, [first]);
    assert [] + [first] == [first] && [first] + body + [end] == disk;
    assert Last(disk) == end && Front(disk) + [end] == disk;
    RenderedEnds(app);
    SaidLast(disk);
  }

  /** A region whose begin line is indented is a region to the client and none to
      the commit command, so an edit that expects no region passes over it. */
  lemma IndentedMarkerSlips(app: string, body: seq<string>)
    requires ValidName(app) && NoMarkers(body) && forall l :: l in body ==> '\n' !in l
    ensures var text := Terminated(["\t" + BEGIN_PREFIX + app] + (body + [END_PREFIX + app]));
      CasPasses(text, app, []) && Resolved(text, app) + "\n" == text
  {
    hide MarkOf, ValidName, LinesOf, TrimLinesRight, Unlines, NoMarkers, CasPasses, DiskLines, Resolved;
    var disk := ["\t" + BEGIN_PREFIX + app] + (body + [END_PREFIX + app]);
    IndentedLines(app, body);
    DiskOfTerminated(disk);
    ResolvedIs(Terminated(disk), app);
    UnlinesTerminated(disk);
    NonePasses(Terminated(disk), app);
  }

  lemma NotBegins(body: seq<string>, app: string)
    requires NoMarkers(body) && MarkOf(BEGIN_PREFIX + app) == Begin(app)
    ensures BEGIN_PREFIX + app !in body
  {
    hide MarkOf;
  }
}
