/** Reading a region, writing one, and reading the file over the wire
    (internal/caddy/caddy.go). */
module RegionEdit {
  import opened Wrappers
  import opened Lines
  import opened Text
  import opened TextLines
  import opened Regions
  import opened RegionLaws

  // ---- extracting ----

  /** The lines of the app's first closed region. */
  function ExtractLines(ls: seq<string>, target: string, active: bool, out: seq<string>): Option<seq<string>>
    decreases |ls|
  {
    if ls == [] then None
    else match MarkOf(ls[0])
      case Begin(a) => ExtractLines(ls[1..], target, active || a == target, out)
      case End(a) => if active && a == target then Some(out) else ExtractLines(ls[1..], target, active, out)
      case Plain => ExtractLines(ls[1..], target, active, if active then out + [ls[0]] else out)
  }

  function ExtractBlock(content: string, app: string): string {
    match ExtractLines(LinesOf(content), TrimSpace(app), false, [])
    case None => ""
    case Some(out) => Trim(Unlines(out), IsNewline)
  }

  method ExtractCaddyfileBlock(content: string, app: string) returns (block: string)
    ensures block == ExtractBlock(content, app)
  {
    hide MarkOf, LinesOf;
    var target := TrimSpace(app);
    var ls := LinesOf(content);
    var out: seq<string> := [];
    var active := false;
    assert ls[0..] == ls;
    for i := 0 to |ls|
      invariant ExtractLines(ls, target, false, []) == ExtractLines(ls[i..], target, active, out)
    {
      assert ls[i..][1..] == ls[i + 1..];
      match MarkOf(ls[i]) {
        case Begin(a) =>
          if a == target {
            active := true;
          }
        case End(a) =>
          if active && a == target {
            return Trim(Unlines(out), IsNewline);
          }
        case Plain =>
          if active {
            out := out + [ls[i]];
          }
      }
    }
    block := "";
  }

  lemma {:induction false} ExtractScan(st: Scan, ls: seq<string>, app: string)
    requires st.Scan? && ScanLines(st, ls).Scan? && ScanLines(st, ls).inside == None && app !in st.regions
    ensures var final, active := ScanLines(st, ls), st.inside == Some(app);
      ExtractLines(ls, app, active, if active then st.body else []) ==
      if app in final.regions then Some(final.regions[app]) else None
    decreases |ls|
  {
    hide MarkOf;
    if ls != [] {
      var next := ScanStep(st, ls[0]);
      if next.Malformed? {
        MalformedStays(ls[1..]);
        assert false;
      } else if app in next.regions {
        RegionsStay(next, ls[1..], app);
      } else {
        ExtractScan(next, ls[1..], app);
      }
    }
  }

  lemma {:induction false} RegionsStay(st: Scan, ls: seq<string>, app: string)
    requires st.Scan? && app in st.regions && ScanLines(st, ls).Scan?
    requires st.inside != Some(app)
    ensures app in ScanLines(st, ls).regions && ScanLines(st, ls).regions[app] == st.regions[app]
    decreases |ls|
  {
    hide MarkOf;
    if ls != [] {
      if ScanStep(st, ls[0]).Malformed? {
        MalformedStays(ls[1..]);
        assert false;
      } else {
        RegionsStay(ScanStep(st, ls[0]), ls[1..], app);
      }
    }
  }

  /** On a well-formed file, extracting reads the region's body and nothing else. */
  lemma ExtractReadsRegion(content: string, app: string)
    requires WellFormed(LinesOf(content)) && ValidName(app)
    ensures var regions := RegionsOf(LinesOf(content));
      ExtractBlock(content, app) == if app in regions then Trim(Unlines(regions[app]), IsNewline) else ""
  {
    hide MarkOf, LinesOf;
    ValidNameTrimmed(app);
    ExtractScan(START, LinesOf(content), app);
  }

  // ---- writing ----

  /** The file with a region appended: what every edit writes. */
  function PutBlock(updated: string, app: string, block: string): string {
    TrimRight(updated, IsNewline) + "\n\n" + BEGIN_PREFIX + app + "\n" + TrimRight(block, IsNewline) + "\n" +
      END_PREFIX + app + "\n"
  }

  /** The body a written block has. */
  function BodyOf(block: string): seq<string> { TrimRightLines(LinesOf(block)) }

  predicate NoMarkers(ls: seq<string>) { forall l :: l in ls ==> MarkOf(l) == Plain }

  function PutLines(before: seq<string>, app: string, body: seq<string>): seq<string> {
    before + [""] + [BEGIN_PREFIX + app] + body + [END_PREFIX + app] + [""]
  }

  lemma UnlinesPut(before: seq<string>, app: string, body: seq<string>)
    requires before != [] && body != []
    ensures Unlines(PutLines(before, app, body)) ==
      Unlines(before) + "\n\n" + BEGIN_PREFIX + app + "\n" + Unlines(body) + "\n" + END_PREFIX + app + "\n"
  {
    hide Unlines;
    var begin, end := BEGIN_PREFIX + app, END_PREFIX + app;
    UnlinesAppend(before, [""]);
    UnlinesAppend(before + [""], [begin]);
    UnlinesAppend(before + [""] + [begin], body);
    UnlinesAppend(before + [""] + [begin] + body, [end]);
    UnlinesAppend(before + [""] + [begin] + body + [end], [""]);
    assert Unlines(before + [""] + [begin]) == Unlines(before) + "\n\n" + BEGIN_PREFIX + app;
  }

  lemma LinesOfPut(updated: string, app: string, block: string)
    requires ValidName(app)
    ensures LinesOf(PutBlock(updated, app, block)) == PutLines(TrimRightLines(LinesOf(updated)), app, BodyOf(block))
  {
    hide TrimRight, TrimRightLines, ValidName, MarkOf, LinesOf, Unlines;
    RenderedMark(BEGIN_PREFIX, app);
    RenderedMark(END_PREFIX, app);
    SplitTrimRight(updated);
    SplitTrimRight(block);
    var u, b := TrimRight(updated, IsNewline), TrimRight(block, IsNewline);
    LinesOfText(u);
    LinesOfText(b);
    UnlinesPut(LinesOf(u), app, LinesOf(b));
    LinesOfUnlines(PutLines(LinesOf(u), app, LinesOf(b)));
  }

  lemma UnlinesAppend(a: seq<string>, b: seq<string>)
    requires a != [] && b != []
    ensures Unlines(a + b) == Unlines(a) + "\n" + Unlines(b)
    ensures |b| == 1 ==> Unlines(b) == b[0]
    ensures |a| == 1 ==> Unlines(a) == a[0]
  {
    JoinConcat(a, b, '\n');
  }

  lemma ScanPut(before: seq<string>, app: string, body: seq<string>)
    requires WellFormed(before) && ValidName(app) && app !in RegionsOf(before) && NoMarkers(body)
    ensures var after := PutLines(before, app, body);
      && WellFormed(after) && RegionsOf(after) == RegionsOf(before)[app := body]
      && NonEmpty(Outside(after)) == NonEmpty(Outside(before))
  {
    hide MarkOf, ValidName;
    var begin, end := BEGIN_PREFIX + app, END_PREFIX + app;
    RenderedMark(BEGIN_PREFIX, app);
    RenderedMark(END_PREFIX, app);
    var a := before + [""];
    SnocEmptyKeeps(before);
    ScanConcat(START, a, [begin]);
    ScanOne(ScanLines(START, a), begin);
    ScanConcat(START, a + [begin], body);
    ScanPlain(ScanLines(START, a + [begin]), body);
    assert [] + body == body;
    ScanConcat(START, a + [begin] + body, [end]);
    ScanOne(ScanLines(START, a + [begin] + body), end);
    SnocEmptyKeeps(a + [begin] + body + [end]);
  }

  lemma BodyHasNoMarkers(block: string)
    requires NoMarkers(LinesOf(block))
    ensures NoMarkers(BodyOf(block))
  {
    hide MarkOf, LinesOf;
    forall l | l in BodyOf(block) ensures MarkOf(l) == Plain {
      assert l in LinesOf(block);
    }
  }

  /** Writing a region adds it, whatever the text's newlines at the end. */
  lemma PutBlockKeeps(updated: string, app: string, block: string)
    requires WellFormed(LinesOf(updated)) && ValidName(app) && app !in RegionsOf(LinesOf(updated)) &&
      NoMarkers(LinesOf(block))
    ensures var before, after := LinesOf(updated), LinesOf(PutBlock(updated, app, block));
      && WellFormed(after) && RegionsOf(after) == RegionsOf(before)[app := BodyOf(block)]
      && NonEmpty(Outside(after)) == NonEmpty(Outside(before))
  {
    hide MarkOf, LinesOf, ValidName, TrimRightLines, PutBlock, NoMarkers, PutLines, BodyOf;
    LinesOfPut(updated, app, block);
    TrimRightKeeps(LinesOf(updated));
    BodyHasNoMarkers(block);
    ScanPut(TrimRightLines(LinesOf(updated)), app, BodyOf(block));
  }

  /** What was written is what is read back, but for newlines at its ends. */
  lemma WrittenBlockReadsBack(block: string)
    ensures Trim(Unlines(BodyOf(block)), IsNewline) == Trim(block, IsNewline)
  {
    hide Trim;
    SplitTrimRight(block);
    var r := TrimRight(block, IsNewline);
    LinesOfText(r);
    var c := RightPart(block, IsNewline);
    assert block == "" + r + c;
    TrimAround("", r, c, IsNewline);
  }

  // ---- reading: the executor trims what a command prints ----

  /** The lines with something on them, without the white space around it. */
  function Said(ls: seq<string>): seq<string> {
    if ls == [] then [] else Said(ls[..|ls| - 1]) + if Blank(ls[|ls| - 1]) then [] else [TrimSpace(ls[|ls| - 1])]
  }

  lemma {:induction false} SaidConcat(a: seq<string>, b: seq<string>)
    ensures Said(a + b) == Said(a) + Said(b)
  {
    if b == [] {
      assert a + b == a;
    } else {
      assert (a + b)[..|a + b| - 1] == a + b[..|b| - 1];
      SaidConcat(a, b[..|b| - 1]);
    }
  }

  lemma SaidOne(l: string)
    ensures Said([l]) == if Blank(l) then [] else [TrimSpace(l)]
  {
    assert [l][..0] == [];
  }

  lemma EmptyIsBlank()
    ensures Blank("")
  {
  }

  lemma {:induction false} SaidOfNonEmpty(ls: seq<string>)
    ensures Said(NonEmpty(ls)) == Said(ls)
  {
    hide Blank, TrimSpace;
    if ls != [] {
      EmptyIsBlank();
      SaidOfNonEmpty(ls[..|ls| - 1]);
      var l := ls[|ls| - 1];
      var kept := NonEmpty(ls[..|ls| - 1]);
      SaidConcat(kept, [l]);
      SaidOne(l);
      assert NonEmpty(ls) == if l == "" then kept else kept + [l];
      assert Said(ls) == Said(ls[..|ls| - 1]) + if Blank(l) then [] else [TrimSpace(l)];
    }
  }

  /** Two scans that differ only in the white space around the lines outside. */
  ghost predicate SaysSame(a: Scan, b: Scan) {
    && a.Scan? && b.Scan? && a.inside == b.inside && a.body == b.body && a.regions == b.regions
    && Said(a.outside) == Said(b.outside)
  }

  lemma StepKeepsSame(a: Scan, b: Scan, l: string)
    requires SaysSame(a, b)
    ensures ScanStep(a, l).Malformed? <==> ScanStep(b, l).Malformed?
    ensures ScanStep(a, l).Scan? ==> SaysSame(ScanStep(a, l), ScanStep(b, l))
  {
    hide MarkOf, Blank, Said;
    SaidConcat(a.outside, [l]);
    SaidConcat(b.outside, [l]);
  }

  lemma {:induction false} ScanSaysSame(a: Scan, b: Scan, ls: seq<string>)
    requires SaysSame(a, b) && ScanLines(a, ls).Scan?
    ensures SaysSame(ScanLines(a, ls), ScanLines(b, ls))
    decreases |ls|
  {
    hide MarkOf, Said, SaysSame, ScanStep;
    if ls != [] {
      StepKeepsSame(a, b, ls[0]);
      if ScanStep(a, ls[0]).Malformed? {
        MalformedStays(ls[1..]);
        assert false;
      } else {
        ScanSaysSame(ScanStep(a, ls[0]), ScanStep(b, ls[0]), ls[1..]);
      }
    }
  }

  /** A line and the same line with other white space around it. */
  lemma StepSaysSame(st: Scan, l: string, m: string)
    requires st.Scan? && TrimSpace(l) == TrimSpace(m) && (st.inside == None || MarkOf(l) != Plain)
    ensures ScanStep(st, l) == ScanStep(st, m) || SaysSame(ScanStep(st, l), ScanStep(st, m))
  {
    hide MarkOf, TrimSpace;
    MarkOfTrimmed(l, m);
    SaidConcat(st.outside, [l]);
    SaidConcat(st.outside, [m]);
    SaidOne(l);
    SaidOne(m);
  }

  lemma BlankSaysNothing(st: Scan, l: string)
    requires st.Scan? && st.inside == None && Blank(l)
    ensures SaysSame(st, ScanStep(st, l))
  {
    hide MarkOf, Blank;
    BlankIsPlain(l);
    SaidConcat(st.outside, [l]);
    SaidOne(l);
  }

  lemma TrimLeftBlank(l: string)
    ensures TrimLeft(l, IsSpace) == "" ==> Blank(l)
    ensures TrimRight(l, IsSpace) == "" ==> Blank(l)
  {
    TrimSpaceOfTrimRight(l);
    TrimSpaceOfTrimLeft(l);
  }

  lemma TrimmedMark(l: string)
    ensures MarkOf(TrimLeft(l, IsSpace)) == MarkOf(l) && MarkOf(TrimRight(l, IsSpace)) == MarkOf(l)
  {
    hide MarkOf, Trim;
    TrimSpaceOfTrimLeft(l);
    TrimSpaceOfTrimRight(l);
    MarkOfTrimmed(TrimLeft(l, IsSpace), l);
    MarkOfTrimmed(TrimRight(l, IsSpace), l);
  }

  lemma {:induction false} TrimLeftSaysSame(st: Scan, ls: seq<string>)
    requires ls != [] && st.Scan? && st.inside == None && ScanLines(st, ls).Scan?
    ensures SaysSame(ScanLines(st, ls), ScanLines(st, TrimLinesLeft(ls)))
    decreases |ls|
  {
    hide MarkOf, Blank, TrimLeft, TrimSpace;
    var l, t := ls[0], TrimLeft(ls[0], IsSpace);
    if |ls| > 1 && t == "" {
      TrimLeftBlank(l);
      BlankSaysNothing(st, l);
      ScanSaysSame(ScanStep(st, l), st, ls[1..]);
      TrimLeftSaysSame(st, ls[1..]);
    } else {
      assert ([t] + ls[1..])[1..] == ls[1..];
      if ScanStep(st, l).Malformed? {
        MalformedStays(ls[1..]);
        assert false;
      } else {
        TrimSpaceOfTrimLeft(l);
        StepSaysSame(st, l, t);
        ScanSaysSame(ScanStep(st, l), ScanStep(st, t), ls[1..]);
      }
    }
  }

  lemma {:induction false} TrimRightSaysSame(ls: seq<string>)
    requires ls != [] && WellFormed(ls)
    ensures SaysSame(ScanLines(START, ls), ScanLines(START, TrimLinesRight(ls)))
  {
    hide MarkOf, Blank, TrimRight, TrimSpace;
    var front, l := Front(ls), Last(ls);
    var t := TrimRight(l, IsSpace);
    var st := ScanLines(START, front);
    assert ls == front + [l];
    ScanConcat(START, front, [l]);
    ScanOne(st, l);
    ScanConcat(START, front, [t]);
    ScanOne(st, t);
    TrimLeftBlank(l);
    if |ls| > 1 && t == "" {
      BlankIsPlain(l);
      BlankSaysNothing(st, l);
      TrimRightSaysSame(front);
    } else {
      TrimSpaceOfTrimRight(l);
      StepSaysSame(st, l, t);
    }
  }

  /** The same regions, and outside them the same lines but for white space. */
  ghost predicate ReadsSame(a: seq<string>, b: seq<string>) {
    WellFormed(a) && WellFormed(b) && RegionsOf(a) == RegionsOf(b) && Said(Outside(a)) == Said(Outside(b))
  }

  /** Reading the file over the wire trims it and keeps every region. */
  lemma TrimSpaceKeeps(content: string)
    requires WellFormed(LinesOf(content))
    ensures ReadsSame(LinesOf(TrimSpace(content)), LinesOf(content))
  {
    hide MarkOf, LinesOf, TrimSpace;
    SplitTrimSpace(content);
    var ls := LinesOf(content);
    TrimLeftSaysSame(START, ls);
    TrimRightSaysSame(TrimLinesLeft(ls));
  }
}
