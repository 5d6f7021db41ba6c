/** What removing, writing and reading a region leave of the others. */
module RegionLaws {
  import opened Wrappers
  import opened Text
  import opened TextLines
  import opened Regions

  // ---- squeezing keeps the regions, each squeezed on its own ----

  function Tidy(regions: map<string, seq<string>>): map<string, seq<string>> {
    map a | a in regions :: SqueezeLines(regions[a], 1)
  }

  /** st2 is where the squeezed lines have brought a scan that the lines as they
      are have brought to st; n newlines of the current run were kept. */
  ghost predicate Squeezed(st: Scan, st2: Scan, n: nat) {
    && st.Scan? && st2.Scan? && st2.inside == st.inside
    && (st.inside.Some? ==> st2.body == SqueezeLines(st.body, 1) && n == NewlinesAfter(st.body, 1))
    && st2.regions == Tidy(st.regions)
    && NonEmpty(st2.outside) == NonEmpty(st.outside)
  }

  lemma SqueezeLine(ls: seq<string>, l: string, n: nat)
    ensures SqueezeLines(ls + [l], n) == SqueezeLines(ls, n) + if l == "" && NewlinesAfter(ls, n) >= 2 then [] else [l]
    ensures NewlinesAfter(ls + [l], n) ==
      if l != "" then 1 else if NewlinesAfter(ls, n) >= 2 then NewlinesAfter(ls, n) else NewlinesAfter(ls, n) + 1
  {
    SqueezeLinesConcat(ls, [l], n);
    assert [l][1..] == [];
  }

  lemma SqueezeScanPlain(st: Scan, st2: Scan, n: nat, l: string)
    requires Squeezed(st, st2, n) && MarkOf(l) == Plain
    ensures l != "" ==> Squeezed(ScanStep(st, l), ScanStep(st2, l), 1)
    ensures l == "" && n >= 2 ==> Squeezed(ScanStep(st, l), st2, n)
    ensures l == "" && n < 2 ==> Squeezed(ScanStep(st, l), ScanStep(st2, l), n + 1)
  {
    hide MarkOf;
    SqueezeLine(st.body, l, 1);
    NonEmptyConcat(st.outside, [l]);
    NonEmptyConcat(st2.outside, [l]);
    assert [l][..0] == [];
  }

  lemma SqueezeScanMark(st: Scan, st2: Scan, n: nat, l: string)
    requires Squeezed(st, st2, n) && MarkOf(l) != Plain && ScanStep(st, l).Scan?
    ensures Squeezed(ScanStep(st, l), ScanStep(st2, l), 1)
  {
    hide MarkOf;
  }

  lemma {:induction false} SqueezeScan(st: Scan, st2: Scan, n: nat, ls: seq<string>)
    requires Squeezed(st, st2, n) && ScanLines(st, ls).Scan?
    ensures Squeezed(ScanLines(st, ls), ScanLines(st2, SqueezeLines(ls, n)), NewlinesAfter(ls, n))
    decreases |ls|
  {
    hide MarkOf, Squeezed, ScanStep;
    if ls != [] {
      var l, next := ls[0], ScanStep(st, ls[0]);
      if next.Malformed? {
        MalformedStays(ls[1..]);
        assert false;
      } else if l != "" {
        if MarkOf(l) == Plain {
          SqueezeScanPlain(st, st2, n, l);
        } else {
          SqueezeScanMark(st, st2, n, l);
        }
        SqueezeScan(next, ScanStep(st2, l), 1, ls[1..]);
        assert ([l] + SqueezeLines(ls[1..], 1))[1..] == SqueezeLines(ls[1..], 1);
      } else {
        EmptyIsPlain();
        SqueezeScanPlain(st, st2, n, l);
        if n >= 2 {
          SqueezeScan(next, st2, n, ls[1..]);
        } else {
          SqueezeScan(next, ScanStep(st2, l), n + 1, ls[1..]);
          assert ([""] + SqueezeLines(ls[1..], n + 1))[1..] == SqueezeLines(ls[1..], n + 1);
        }
      }
    }
  }

  /** Empty lines at the end lie outside every region. */
  lemma {:induction false} EmptyTail(st: Scan, ls: seq<string>)
    requires forall l :: l in ls ==> l == ""
    requires ScanLines(st, ls).Scan? && ScanLines(st, ls).inside == None
    ensures st.Scan? && st.inside == None && ScanLines(st, ls).regions == st.regions
    ensures NonEmpty(ScanLines(st, ls).outside) == NonEmpty(st.outside)
    decreases |ls|
  {
    hide MarkOf;
    if ls != [] {
      EmptyIsPlain();
      if st.Malformed? {
        MalformedStays(ls);
        assert false;
      } else {
        assert ls[0] in ls && forall l :: l in ls[1..] ==> l in ls;
        EmptyTail(ScanStep(st, ls[0]), ls[1..]);
        NonEmptyConcat(st.outside, [""]);
        assert NonEmpty([""]) == [] by { assert [""][..0] == []; }
      }
    }
  }

  /** The same regions, and outside them the same lines but for empty ones. */
  ghost predicate SameFile(a: seq<string>, b: seq<string>) {
    WellFormed(a) && WellFormed(b) && RegionsOf(a) == RegionsOf(b) && NonEmpty(Outside(a)) == NonEmpty(Outside(b))
  }

  lemma TrimRightKeeps(ls: seq<string>)
    requires ls != [] && WellFormed(ls)
    ensures SameFile(TrimRightLines(ls), ls)
  {
    var r := TrimRightLines(ls);
    assert ls == r + ls[|r|..];
    ScanConcat(START, r, ls[|r|..]);
    EmptyTail(ScanLines(START, r), ls[|r|..]);
  }

  lemma SnocEmptyKeeps(ls: seq<string>)
    requires WellFormed(ls)
    ensures SameFile(ls + [""], ls)
  {
    ScanConcat(START, ls, [""]);
    ScanOne(ScanLines(START, ls), "");
    EmptyTail(ScanLines(START, ls), [""]);
  }

  /** Collapsing, line by line. */
  function CollapsedLines(ls: seq<string>): seq<string>
    requires ls != []
  {
    SqueezeLines(Front(ls), 0) + [Last(ls)]
  }

  lemma CollapseKeeps(ls: seq<string>)
    requires ls != [] && WellFormed(ls)
    ensures WellFormed(CollapsedLines(ls)) && RegionsOf(CollapsedLines(ls)) == Tidy(RegionsOf(ls))
    ensures NonEmpty(Outside(CollapsedLines(ls))) == NonEmpty(Outside(ls))
  {
    hide MarkOf;
    var front, last := Front(ls), Last(ls);
    assert ls == front + [last];
    ScanConcat(START, front, [last]);
    ScanConcat(START, SqueezeLines(front, 0), [last]);
    var st, st2 := ScanLines(START, front), ScanLines(START, SqueezeLines(front, 0));
    if st.Malformed? {
      MalformedStays([last]);
      assert false;
    } else {
      SqueezeScan(START, START, 0, front);
      ScanOne(st, last);
      ScanOne(st2, last);
      if MarkOf(last) == Plain {
        NonEmptyConcat(st.outside, [last]);
        NonEmptyConcat(st2.outside, [last]);
      }
    }
  }

  // ---- removing ----

  lemma ScanKept(kept: seq<string>)
    requires WellFormed(kept)
    ensures SameFile(KeptLines(kept), kept)
  {
    if kept == [] {
      SnocEmptyKeeps(kept);
      assert [] + [""] == [""];
    }
  }

  lemma LinesOfTidied(ls: seq<string>)
    requires AreLines(ls)
    ensures var t := TrimRightLines(CollapsedLines(ls));
      LinesOf(Tidied(Unlines(ls))) == if t == [""] then [""] else t + [""]
  {
    hide TrimRight, Squeeze, LinesOf, TrimRightLines, CollapsedLines;
    var text := Unlines(ls);
    LinesOfUnlines(ls);
    CollapsedText(ls);
    var trimmed := TrimRight(Collapse(text), IsNewline);
    SplitTrimRight(Collapse(text));
    SplitSnoc(trimmed);
    if trimmed == "" {
      assert LinesOf("") == [""] by { SplitEmpty(); }
      assert Tidied(text) == "";
    } else {
      LinesOfText(trimmed);
      assert |trimmed + "\n"| > 1;
      assert LinesOf(trimmed) != [""];
    }
  }

  lemma CollapsedText(ls: seq<string>)
    requires AreLines(ls)
    ensures LinesOf(Collapse(Unlines(ls))) == CollapsedLines(ls)
  {
    LinesOfUnlines(ls);
    SplitSqueeze(Unlines(ls), 0);
  }

  /** The tidied text of well-formed lines. */
  lemma TidiedKeeps(ls: seq<string>)
    requires AreLines(ls) && WellFormed(ls)
    ensures var after := LinesOf(Tidied(Unlines(ls)));
      && WellFormed(after) && RegionsOf(after) == Tidy(RegionsOf(ls))
      && NonEmpty(Outside(after)) == NonEmpty(Outside(ls))
  {
    hide TrimRight, Squeeze, LinesOf, TrimRightLines, CollapsedLines, MarkOf, Tidied, RegionsOf, Outside, WellFormed;
    LinesOfTidied(ls);
    CollapseKeeps(ls);
    var c := CollapsedLines(ls);
    TrimRightKeeps(c);
    SnocEmptyKeeps(TrimRightLines(c));
  }

  lemma {:induction false} KeptAreLines(ls: seq<string>, app: string, active: bool, removed: bool)
    requires RemoveLines(ls, app, active, removed).Ok?
    ensures forall l :: l in RemoveLines(ls, app, active, removed).value.kept ==> l in ls
  {
    hide MarkOf;
    if ls != [] {
      match MarkOf(ls[0]) {
        case Begin(a) =>
          if a == app {
            KeptAreLines(ls[1..], app, true, true);
          } else {
            KeptAreLines(ls[1..], app, active, removed);
          }
        case End(a) =>
          KeptAreLines(ls[1..], app, if a == app then false else active, removed);
        case Plain =>
          KeptAreLines(ls[1..], app, active, removed);
      }
    }
  }

  /** Removing an app from a well-formed file succeeds, leaves it well formed and
      without that app, leaves every other region but for runs of empty lines,
      and leaves every line outside that is not empty. */
  lemma RemoveBlockKeeps(content: string, app: string)
    requires WellFormed(LinesOf(content)) && ValidName(app)
    ensures var r, before := RemoveBlock(content, app), LinesOf(content);
      && r.Ok? && WellFormed(LinesOf(r.value))
      && RegionsOf(LinesOf(r.value)) ==
        (if app in RegionsOf(before) then Tidy(RegionsOf(before) - {app}) else RegionsOf(before))
      && NonEmpty(Outside(LinesOf(r.value))) == NonEmpty(Outside(before))
  {
    hide MarkOf, LinesOf, Tidied;
    var ls := LinesOf(content);
    ValidNameTrimmed(app);
    RemoveScan(START, ls, app);
    var r := RemoveLines(ls, app, false, false).value;
    LinesOfText(content);
    KeptAreLines(ls, app, false, false);
    ScanKept(r.kept);
    UnlinesKept(r.kept);
    if r.removed {
      TidiedKeeps(KeptLines(r.kept));
    } else {
      LinesOfUnlines(KeptLines(r.kept));
    }
  }

  lemma UnlinesKept(kept: seq<string>)
    ensures Unlines(KeptLines(kept)) == Unlines(kept)
  {
  }

  // ---- exactly when a removal is refused ----

  predicate Own(line: string, app: string) { MarkOf(line) == Begin(app) || MarkOf(line) == End(app) }

  ghost predicate NoneOwn(ls: seq<string>, app: string) {
    forall i :: 0 <= i < |ls| ==> !Own(ls[i], app)
  }

  /** An open region of the app is closed at line e, with no region beginning
      before that and no marker of the app after. */
  ghost predicate ClosesAt(ls: seq<string>, app: string, e: nat) {
    && e < |ls| && MarkOf(ls[e]) == End(app)
    && (forall i :: 0 <= i < e ==> !MarkOf(ls[i]).Begin? && MarkOf(ls[i]) != End(app))
    && NoneOwn(ls[e + 1..], app)
  }

  /** The app's only markers are one that begins and one that ends its region,
      and no region begins in between. */
  ghost predicate OneRegion(ls: seq<string>, app: string, b: nat, e: nat) {
    && b < e < |ls| && MarkOf(ls[b]) == Begin(app) && NoneOwn(ls[..b], app)
    && ClosesAt(ls[b + 1..], app, e - b - 1)
  }

  lemma {:induction false} RemoveNone(ls: seq<string>, app: string)
    ensures RemoveLines(ls, app, false, true).Ok? <==> NoneOwn(ls, app)
    ensures NoneOwn(ls, app) ==> forall removed :: RemoveLines(ls, app, false, removed) == Ok(Removal(ls, removed))
  {
    hide MarkOf;
    if ls != [] {
      RemoveNone(ls[1..], app);
      assert ls == [ls[0]] + ls[1..];
      assert NoneOwn(ls, app) <==> !Own(ls[0], app) && NoneOwn(ls[1..], app) by {
        assert forall i {:trigger ls[i]} :: 0 < i < |ls| ==> ls[i] == ls[1..][i - 1];
      }
    }
  }

  /** A line that neither begins a region nor ends the app's moves the close on. */
  lemma ClosesLater(ls: seq<string>, app: string, e: nat)
    requires ls != [] && !MarkOf(ls[0]).Begin? && MarkOf(ls[0]) != End(app)
    ensures ClosesAt(ls[1..], app, e) <==> ClosesAt(ls, app, e + 1)
    ensures !ClosesAt(ls, app, 0)
  {
    hide MarkOf, NoneOwn;
    var rest := ls[1..];
    if e + 1 < |ls| {
      assert rest[e + 1..] == ls[e + 1 + 1..] && rest[e] == ls[e + 1];
      assert forall i {:trigger rest[i]} :: 0 <= i < e ==> rest[i] == ls[i + 1];
      assert forall i {:trigger ls[i]} :: 0 < i < e + 1 ==> ls[i] == rest[i - 1];
    }
  }

  lemma ClosesFirst(ls: seq<string>, app: string)
    requires ls != [] && MarkOf(ls[0]) == End(app)
    ensures forall e: nat :: ClosesAt(ls, app, e) <==> e == 0 && NoneOwn(ls[1..], app)
  {
    hide MarkOf, NoneOwn;
  }

  lemma BeginBlocks(ls: seq<string>, app: string)
    requires ls != [] && MarkOf(ls[0]).Begin?
    ensures forall e: nat :: !ClosesAt(ls, app, e)
  {
    hide MarkOf, NoneOwn;
  }

  lemma {:induction false} RemoveOpen(ls: seq<string>, app: string)
    ensures RemoveLines(ls, app, true, true).Ok? <==> exists e: nat :: ClosesAt(ls, app, e)
  {
    hide MarkOf, NoneOwn, ClosesAt;
    if ls == [] {
      NothingCloses(app);
    } else if MarkOf(ls[0]) == End(app) {
      RemoveNone(ls[1..], app);
      ClosesFirst(ls, app);
      assert ClosesAt(ls, app, 0) <==> NoneOwn(ls[1..], app);
    } else if MarkOf(ls[0]).Begin? {
      BeginBlocks(ls, app);
    } else {
      RemoveOpen(ls[1..], app);
      forall e: nat | ClosesAt(ls[1..], app, e) ensures ClosesAt(ls, app, e + 1) {
        ClosesLater(ls, app, e);
      }
      forall e: nat | ClosesAt(ls, app, e) ensures e > 0 && ClosesAt(ls[1..], app, e - 1) {
        ClosesLater(ls, app, if e == 0 then 0 else e - 1);
      }
    }
  }

  lemma NothingCloses(app: string)
    ensures forall e: nat :: !ClosesAt([], app, e)
  {
  }

  /** Editing is refused exactly when the app's own markers are not one clean
      pair, or none at all: nothing is removed by guessing. */
  lemma {:induction false} RemovalIsRefusedIff(ls: seq<string>, app: string)
    ensures RemoveLines(ls, app, false, false).Ok? <==>
      NoneOwn(ls, app) || exists b: nat, e: nat :: OneRegion(ls, app, b, e)
  {
    hide MarkOf, ClosesAt;
    if ls == [] {
    } else if MarkOf(ls[0]) == Begin(app) {
      RemoveOpen(ls[1..], app);
      OwnFirst(ls, app);
      forall e: nat | ClosesAt(ls[1..], app, e) ensures OneRegion(ls, app, 0, e + 1) {
        ClosesInside(ls[1..], app, e);
      }
      forall b: nat, e: nat | OneRegion(ls, app, b, e) ensures b == 0 && ClosesAt(ls[1..], app, e - 1) {
      }
    } else if MarkOf(ls[0]) == End(app) {
      OwnFirst(ls, app);
      forall b: nat, e: nat ensures !OneRegion(ls, app, b, e) {
      }
    } else {
      RemovalIsRefusedIff(ls[1..], app);
      assert forall i {:trigger ls[i]} :: 0 < i < |ls| ==> ls[i] == ls[1..][i - 1];
      assert NoneOwn(ls, app) <==> NoneOwn(ls[1..], app);
      forall b: nat, e: nat | OneRegion(ls[1..], app, b, e) ensures OneRegion(ls, app, b + 1, e + 1) {
        assert ls[b + 1 + 1..] == ls[1..][b + 1..];
        assert ls[..b + 1] == [ls[0]] + ls[1..][..b];
      }
      forall b: nat, e: nat | OneRegion(ls, app, b, e) ensures b > 0 && OneRegion(ls[1..], app, b - 1, e - 1) {
        assert ls[b + 1..] == ls[1..][b - 1 + 1..];
        assert ls[..b] == [ls[0]] + ls[1..][..b - 1];
        NoneOwnTail(ls[..b], app);
        assert ls[..b][1..] == ls[1..][..b - 1];
      }
    }
  }

  lemma OwnFirst(ls: seq<string>, app: string)
    requires ls != [] && Own(ls[0], app)
    ensures !NoneOwn(ls, app) && forall b :: 0 < b <= |ls| ==> !NoneOwn(ls[..b], app)
  {
    forall b | 0 < b <= |ls| ensures !NoneOwn(ls[..b], app) {
      assert ls[..b][0] == ls[0];
    }
    assert ls[..|ls|] == ls;
  }

  lemma NoneOwnTail(ls: seq<string>, app: string)
    requires ls != [] && NoneOwn(ls, app)
    ensures NoneOwn(ls[1..], app)
  {
    forall i | 0 <= i < |ls| - 1 ensures !Own(ls[1..][i], app) {
      assert !Own(ls[i + 1], app);
    }
  }

  lemma ClosesInside(ls: seq<string>, app: string, e: nat)
    requires ClosesAt(ls, app, e)
    ensures e < |ls|
  {
  }
}
