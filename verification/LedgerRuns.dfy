/** Crash safety of the admission ledger, over every run of its process. */
module LedgerRuns {
  import opened Wrappers
  import opened Lines
  import opened Ledger

  datatype Handle = Closed | Open | Poisoned

  /** The file, the process's handle on it, every record handed to Append and
      every one it acknowledged, in order. */
  datatype World = World(file: FileState, handle: Handle, submitted: seq<AdmissionRecord>, acked: seq<AdmissionRecord>)

  datatype Event =
    | DoAppend(rec: AdmissionRecord, fate: AppendFate)
    | DoOpen(openFate: OpenFate)
    | Exit
    | Writeback(upTo: nat)
    | Crash(kept: nat)

  ghost predicate Enabled(w: World, e: Event) {
    match e
    case DoAppend(rec, _) => w.handle != Closed && !rec.kind.Unknown?
    case DoOpen(_) => w.handle == Closed
    case Exit => true
    case Writeback(n) => w.file.synced <= n <= |w.file.content|
    case Crash(n) => w.file.synced <= n <= |w.file.content|
  }

  ghost function Step(c: Codec, w: World, e: Event): World
    requires Enabled(w, e)
  {
    match e
    case DoAppend(rec, fate) =>
      var r := AppendStep(c, w.file, w.handle == Poisoned, rec, fate);
      World(r.file, if r.failed then Poisoned else Open, w.submitted + [rec], if r.ok then w.acked + [rec] else w.acked)
    case DoOpen(fate) =>
      var r := OpenStep(c, w.file, fate);
      w.(file := r.file, handle := if r.isOpen then Open else Closed)
    case Exit => w.(handle := Closed)
    case Writeback(n) => w.(file := FileState(w.file.content, n))
    case Crash(n) => w.(file := FileState(w.file.content[..n], n), handle := Closed)
  }

  ghost predicate Run(c: Codec, w: World, events: seq<Event>)
    decreases |events|
  {
    events == [] || (Enabled(w, events[0]) && Run(c, Step(c, w, events[0]), events[1..]))
  }

  ghost function After(c: Codec, w: World, events: seq<Event>): World
    requires Run(c, w, events)
    decreases |events|
  {
    if events == [] then w else After(c, Step(c, w, events[0]), events[1..])
  }

  const EMPTY: World := World(FileState([], 0), Closed, [], [])

  // ---- order-preserving sublists ----

  ghost predicate Sublist<T>(a: seq<T>, b: seq<T>)
    decreases |b|
  {
    || a == []
    || (b != [] && Sublist(a, b[..|b| - 1]))
    || (b != [] && a[|a| - 1] == b[|b| - 1] && Sublist(a[..|a| - 1], b[..|b| - 1]))
  }

  lemma SublistSnoc<T>(a: seq<T>, b: seq<T>, x: T)
    requires Sublist(a, b)
    ensures Sublist(a, b + [x]) && Sublist(a + [x], b + [x])
  {
    assert (b + [x])[..|b|] == b && (a + [x])[..|a|] == a;
  }

  lemma {:induction false} SublistInit<T>(a: seq<T>, b: seq<T>)
    requires Sublist(a, b) && a != []
    ensures Sublist(a[..|a| - 1], b)
    decreases |b|
  {
    if Sublist(a, b[..|b| - 1]) {
      SublistInit(a, b[..|b| - 1]);
    }
  }

  lemma {:induction false} SublistPrefix<T>(a: seq<T>, b: seq<T>, n: nat)
    requires Sublist(a, b) && n <= |a|
    ensures Sublist(a[..n], b)
    decreases |a|
  {
    if n < |a| {
      SublistInit(a, b);
      SublistPrefix(a[..|a| - 1], b, n);
      assert a[..|a| - 1][..n] == a[..n];
    } else {
      assert a[..n] == a;
    }
  }

  lemma {:induction false} SublistExtend<T>(a: seq<T>, b: seq<T>, k: nat, m: nat)
    requires k <= m <= |b| && Sublist(a, b[..k])
    ensures Sublist(a, b[..m])
    decreases m
  {
    if k < m {
      SublistExtend(a, b, k, m - 1);
      assert b[..m][..m - 1] == b[..m - 1];
    }
  }

  // ---- what is in the file ----

  /** Records as the lines Append writes. */
  ghost function Encoded(c: Codec, recs: seq<AdmissionRecord>): seq<byte>
    requires forall r :: r in recs ==> c.encode(r).Some?
  {
    if recs == [] then []
    else Encoded(c, recs[..|recs| - 1]) + c.encode(recs[|recs| - 1]).value + [NEWLINE]
  }

  ghost predicate Writable(c: Codec, recs: seq<AdmissionRecord>) {
    forall r :: r in recs ==> c.encode(r).Some? && !r.kind.Unknown?
  }

  lemma EncodedSnoc(c: Codec, recs: seq<AdmissionRecord>, r: AdmissionRecord)
    requires Writable(c, recs + [r])
    ensures Writable(c, recs) && c.encode(r).Some?
    ensures Encoded(c, recs + [r]) == Encoded(c, recs) + (c.encode(r).value + [NEWLINE])
  {
    assert (recs + [r])[..|recs|] == recs;
    assert r in recs + [r];
    assert forall x :: x in recs ==> x in recs + [r];
  }

  ghost function LinesOf(c: Codec, recs: seq<AdmissionRecord>): seq<seq<byte>>
    requires Writable(c, recs)
  {
    if recs == [] then [] else LinesOf(c, recs[..|recs| - 1]) + [c.encode(recs[|recs| - 1]).value]
  }

  lemma {:induction false} EncodedSplits(c: Codec, recs: seq<AdmissionRecord>, tail: seq<byte>)
    requires Faithful(c) && Writable(c, recs) && NEWLINE !in tail
    ensures Split(Encoded(c, recs) + tail, NEWLINE) == LinesOf(c, recs) + [tail]
    decreases |recs|
  {
    if recs == [] {
      SplitLine(tail, NEWLINE);
      assert [] + tail == tail;
    } else {
      var front, r := recs[..|recs| - 1], recs[|recs| - 1];
      var line := c.encode(r).value;
      EncodedSplits(c, front, line);
      SplitConcat(Encoded(c, front) + line, NEWLINE, tail);
      SplitLine(tail, NEWLINE);
      assert Encoded(c, recs) + tail == Encoded(c, front) + line + [NEWLINE] + tail;
    }
  }

  lemma {:induction false} LinesParse(c: Codec, recs: seq<AdmissionRecord>)
    requires Faithful(c) && Writable(c, recs)
    ensures ParseLines(c, LinesOf(c, recs), 1) == Ok(recs)
    decreases |recs|
  {
    if recs != [] {
      var front, r := recs[..|recs| - 1], recs[|recs| - 1];
      LinesParse(c, front);
      ParseLinesConcat(c, LinesOf(c, front), [c.encode(r).value], 1);
      ParseOneLine(c, c.encode(r).value, 1 + |LinesOf(c, front)|);
      assert recs == front + [r];
    }
  }

  /** A file of whole lines and perhaps a torn one parses to the whole lines. */
  lemma EncodedParses(c: Codec, recs: seq<AdmissionRecord>, tail: seq<byte>)
    requires Faithful(c) && Writable(c, recs) && NEWLINE !in tail
    ensures ParseLedger(c, Encoded(c, recs) + tail) == Ok(recs)
  {
    var data := Encoded(c, recs) + tail;
    EncodedSplits(c, recs, tail);
    LinesParse(c, recs);
    if tail != [] {
      assert data[|data| - 1] == tail[|tail| - 1];
      assert tail[|tail| - 1] in tail;
      assert CompleteLines(data) == LinesOf(c, recs);
    } else if recs != [] {
      assert data == Encoded(c, recs);
      var front, line := recs[..|recs| - 1], c.encode(recs[|recs| - 1]).value;
      EncodedSplits(c, front, line);
      assert data[..|data| - 1] == Encoded(c, front) + line;
      assert CompleteLines(data) == LinesOf(c, recs);
    }
  }

  /** Cutting such a file anywhere leaves whole lines and perhaps a torn one,
      and no line that ended before the cut is lost. */
  lemma {:induction false} CutKeepsLines(c: Codec, recs: seq<AdmissionRecord>, tail: seq<byte>, n: nat)
    returns (m: nat, torn: seq<byte>)
    requires Faithful(c) && Writable(c, recs) && NEWLINE !in tail
    requires n <= |Encoded(c, recs) + tail|
    ensures m <= |recs| && NEWLINE !in torn
    ensures (Encoded(c, recs) + tail)[..n] == Encoded(c, recs[..m]) + torn
    ensures forall j :: 0 <= j <= |recs| && |Encoded(c, recs[..j])| <= n ==> j <= m
    decreases |recs|
  {
    var whole := Encoded(c, recs);
    if n >= |whole| {
      m, torn := |recs|, tail[..n - |whole|];
      assert recs[..m] == recs;
    } else {
      var front, r := recs[..|recs| - 1], recs[|recs| - 1];
      var line := c.encode(r).value;
      m, torn := CutKeepsLines(c, front, line, n);
      assert (whole + tail)[..n] == (Encoded(c, front) + line)[..n];
      assert front[..m] == recs[..m];
      assert recs[..|recs|] == recs;
      forall j | 0 <= j < |recs| && |Encoded(c, recs[..j])| <= n ensures j <= m {
        assert front[..j] == recs[..j];
      }
    }
  }

  // ---- the invariant ----

  /** The file holds the lines of recs and then a torn one; the acknowledged
      records are among the first `durable` of them, which no crash takes. */
  ghost predicate Holds(c: Codec, w: World, recs: seq<AdmissionRecord>, tail: seq<byte>, durable: nat) {
    && Writable(c, recs) && NEWLINE !in tail && durable <= |recs|
    && w.file.content == Encoded(c, recs) + tail
    && |Encoded(c, recs[..durable])| <= w.file.synced <= |w.file.content|
    && Sublist(w.acked, recs[..durable])
    && Sublist(recs, w.submitted)
    && (w.handle == Open ==> tail == [])
  }

  ghost predicate Sound(c: Codec, w: World) {
    exists recs, tail, durable :: Holds(c, w, recs, tail, durable)
  }

  lemma {:induction false} LastLineEndIs(c: Codec, recs: seq<AdmissionRecord>, tail: seq<byte>)
    requires Writable(c, recs) && NEWLINE !in tail
    ensures LastLineEnd(Encoded(c, recs) + tail) == |Encoded(c, recs)|
    decreases |tail|
  {
    var data := Encoded(c, recs) + tail;
    if tail == [] {
      assert data == Encoded(c, recs);
    } else {
      assert data[|data| - 1] == tail[|tail| - 1] && tail[|tail| - 1] in tail;
      LastLineEndIs(c, recs, tail[..|tail| - 1]);
      assert data[..|data| - 1] == Encoded(c, recs) + tail[..|tail| - 1];
    }
  }

  /** A record whose whole line was written: it is in the file, and acknowledged
      if the sync went through. */
  lemma WholeLineHolds(c: Codec, w: World, rec: AdmissionRecord, recs: seq<AdmissionRecord>, durable: nat, n: World,
                       synced: bool)
    requires Holds(c, w, recs, [], durable) && Writable(c, recs + [rec])
    requires n.file.content == w.file.content + (c.encode(rec).value + [NEWLINE])
    requires n.submitted == w.submitted + [rec] && n.acked == if synced then w.acked + [rec] else w.acked
    requires n.file.synced == if synced then |n.file.content| else w.file.synced
    ensures Sound(c, n)
  {
    hide Encoded, Sublist;
    var more := recs + [rec];
    EncodedSnoc(c, recs, rec);
    SublistSnoc(recs, w.submitted, rec);
    assert w.file.content == Encoded(c, recs);
    assert n.file.content == Encoded(c, more) + [];
    if synced {
      SublistExtend(w.acked, recs, durable, |recs|);
      assert recs[..|recs|] == recs && more[..|more|] == more;
      SublistSnoc(w.acked, recs, rec);
      assert Holds(c, n, more, [], |more|);
    } else {
      assert more[..durable] == recs[..durable];
      assert Holds(c, n, more, [], durable);
    }
  }

  /** A record whose line was cut short: a torn tail. */
  lemma TornLineHolds(c: Codec, w: World, rec: AdmissionRecord, recs: seq<AdmissionRecord>, durable: nat, n: World,
                      torn: seq<byte>)
    requires Holds(c, w, recs, [], durable) && NEWLINE !in torn
    requires n.file == FileState(w.file.content + torn, w.file.synced) && n.handle != Open
    requires n.submitted == w.submitted + [rec] && n.acked == w.acked
    ensures Sound(c, n)
  {
    hide Encoded, Sublist;
    SublistSnoc(recs, w.submitted, rec);
    assert w.file.content == Encoded(c, recs);
    assert Holds(c, n, recs, torn, durable);
  }

  lemma NothingWrittenHolds(c: Codec, w: World, rec: AdmissionRecord, recs: seq<AdmissionRecord>, tail: seq<byte>,
                            durable: nat, n: World)
    requires Holds(c, w, recs, tail, durable)
    requires n == w.(submitted := w.submitted + [rec])
    ensures Sound(c, n)
  {
    hide Encoded, Writable, Sublist;
    SublistSnoc(recs, w.submitted, rec);
    assert Holds(c, n, recs, tail, durable);
  }

  lemma AppendKeepsSound(c: Codec, w: World, rec: AdmissionRecord, fate: AppendFate)
    requires Faithful(c) && Sound(c, w) && Enabled(w, DoAppend(rec, fate))
    ensures Sound(c, Step(c, w, DoAppend(rec, fate)))
  {
    hide Encoded, Sublist, Sound;
    var recs, tail, durable: nat := SomeHolding(c, w);
    var n := Step(c, w, DoAppend(rec, fate));
    if c.encode(rec).None? || w.handle == Poisoned {
      NothingWrittenHolds(c, w, rec, recs, tail, durable, n);
    } else {
      var line := c.encode(rec).value;
      var whole := line + [NEWLINE];
      if fate.WriteStopped? && fate.n <= |line| {
        assert whole[..Min(fate.n, |whole|)] == line[..fate.n];
        TornLineHolds(c, w, rec, recs, durable, n, line[..fate.n]);
      } else {
        assert whole[..|whole|] == whole;
        WholeLineHolds(c, w, rec, recs, durable, n, fate == Durable);
      }
    }
  }

  lemma SomeHolding(c: Codec, w: World) returns (recs: seq<AdmissionRecord>, tail: seq<byte>, durable: nat)
    requires Sound(c, w)
    ensures Holds(c, w, recs, tail, durable)
  {
    recs, tail, durable :| Holds(c, w, recs, tail, durable);
  }

  /** Truncation to the last newline leaves the whole lines. */
  lemma TruncatedHolds(c: Codec, w: World, recs: seq<AdmissionRecord>, tail: seq<byte>, durable: nat, n: World)
    requires Holds(c, w, recs, tail, durable) && w.handle == Closed
    requires n.file.content == Encoded(c, recs) && n.submitted == w.submitted && n.acked == w.acked
    requires n.file.synced == Min(w.file.synced, |n.file.content|) || n.file.synced == |n.file.content|
    ensures Sound(c, n)
  {
    CutAfterDurable(c, recs, durable);
    hide Sublist, Encoded;
    assert Encoded(c, recs) + [] == Encoded(c, recs);
    assert Holds(c, n, recs, [], durable);
  }

  lemma OpenKeepsSound(c: Codec, w: World, fate: OpenFate)
    requires Faithful(c) && Sound(c, w) && w.handle == Closed
    ensures Sound(c, Step(c, w, DoOpen(fate)))
  {
    var recs, tail, durable: nat := SomeHolding(c, w);
    LastLineEndIs(c, recs, tail);
    OpenedFile(c, w.file, fate, Encoded(c, recs), tail);
    hide Sublist, ParseLedger, Encoded, LastLineEnd, Sound, OpenStep;
    var n := Step(c, w, DoOpen(fate));
    if n.file == w.file {
      assert n.handle == Open ==> tail == [];
      StillHolds(c, w, recs, tail, durable, n);
    } else {
      TruncatedHolds(c, w, recs, tail, durable, n);
    }
  }

  lemma StillHolds(c: Codec, w: World, recs: seq<AdmissionRecord>, tail: seq<byte>, durable: nat, n: World)
    requires Holds(c, w, recs, tail, durable) && (n.handle == Open ==> tail == [])
    requires n.file == w.file && n.submitted == w.submitted && n.acked == w.acked
    ensures Sound(c, n)
  {
    hide Sublist, Encoded;
    assert Holds(c, n, recs, tail, durable);
  }

  lemma TailIsTorn(whole: seq<byte>, tail: seq<byte>)
    requires NEWLINE !in tail && tail != []
    ensures Torn(whole + tail)
  {
    assert (whole + tail)[|whole + tail| - 1] == tail[|tail| - 1] && tail[|tail| - 1] in tail;
  }

  /** What opening can do to a file of whole lines and a torn one. */
  lemma OpenedFile(c: Codec, f: FileState, fate: OpenFate, whole: seq<byte>, tail: seq<byte>)
    requires NEWLINE !in tail && f.content == whole + tail && LastLineEnd(f.content) == |whole|
    ensures var r := OpenStep(c, f, fate);
      || (r.file == f && (r.isOpen ==> tail == []))
      || (r.file.content == whole && (r.file.synced == Min(f.synced, |whole|) || r.file.synced == |whole|))
  {
    hide ParseLedger, LastLineEnd, Torn;
    if tail != [] {
      TailIsTorn(whole, tail);
    }
    assert f.content[..|whole|] == whole;
  }

  lemma {:induction false} CutAfterDurable(c: Codec, recs: seq<AdmissionRecord>, k: nat)
    requires Writable(c, recs) && k <= |recs|
    ensures |Encoded(c, recs[..k])| <= |Encoded(c, recs)|
    decreases |recs|
  {
    if k < |recs| {
      CutAfterDurable(c, recs[..|recs| - 1], k);
      assert recs[..|recs| - 1][..k] == recs[..k];
    } else {
      assert recs[..k] == recs;
    }
  }

  lemma CrashKeepsSound(c: Codec, w: World, kept: nat)
    requires Faithful(c) && Sound(c, w) && Enabled(w, Crash(kept))
    ensures Sound(c, Step(c, w, Crash(kept)))
  {
    var recs, tail, durable: nat :| Holds(c, w, recs, tail, durable);
    var m, torn := CutKeepsLines(c, recs, tail, kept);
    SublistPrefix(recs, w.submitted, m);
    assert recs[..m][..durable] == recs[..durable];
    assert Holds(c, Step(c, w, Crash(kept)), recs[..m], torn, durable);
  }

  lemma StepKeepsSound(c: Codec, w: World, e: Event)
    requires Faithful(c) && Sound(c, w) && Enabled(w, e)
    ensures Sound(c, Step(c, w, e))
  {
    match e {
      case DoAppend(rec, fate) => AppendKeepsSound(c, w, rec, fate);
      case DoOpen(fate) => OpenKeepsSound(c, w, fate);
      case Crash(kept) => CrashKeepsSound(c, w, kept);
      case _ =>
        var recs, tail, durable: nat :| Holds(c, w, recs, tail, durable);
        assert Holds(c, Step(c, w, e), recs, tail, durable);
    }
  }

  lemma {:induction false} RunKeepsSound(c: Codec, w: World, events: seq<Event>)
    requires Faithful(c) && Sound(c, w) && Run(c, w, events)
    ensures Sound(c, After(c, w, events))
    decreases |events|
  {
    if events != [] {
      StepKeepsSound(c, w, events[0]);
      RunKeepsSound(c, Step(c, w, events[0]), events[1..]);
    }
  }

  // ---- from any first bytes ----

  /** A process has the file open only while every complete line parses, and an
      append that may go on starts on a line of its own. */
  ghost predicate OpenParses(c: Codec, w: World) {
    && (w.handle != Closed ==> ParseLedger(c, w.file.content).Ok?)
    && (w.handle == Open ==> w.file.content == [] || w.file.content[|w.file.content| - 1] == NEWLINE)
  }

  /** A line after whole lines is one more line to parse. */
  lemma LineAfterParses(c: Codec, data: seq<byte>, line: seq<byte>)
    requires !Torn(data) && ParseLedger(c, data).Ok? && NEWLINE !in line
    ensures ParseLedger(c, data + line) == ParseLedger(c, data)
    ensures c.decode(line).Some? && !c.decode(line).value.kind.Unknown? ==> ParseLedger(c, data + line + [NEWLINE]).Ok?
  {
    hide ParseLines;
    LineAfter(data, line);
    ParseLinesConcat(c, CompleteLines(data), [line], 1);
    ParseOneLine(c, line, 1 + |CompleteLines(data)|);
  }

  lemma LineAfter(data: seq<byte>, line: seq<byte>)
    requires !Torn(data) && NEWLINE !in line
    ensures CompleteLines(data + line) == CompleteLines(data)
    ensures CompleteLines(data + line + [NEWLINE]) == CompleteLines(data) + [line]
  {
    hide Split, LastLineEnd, CompleteLines, Torn;
    var whole := data + line + [NEWLINE];
    SplitLine(line, NEWLINE);
    SplitLine([], NEWLINE);
    SplitIsComplete(data);
    SplitIsComplete(data + line);
    SplitIsComplete(whole);
    SplitConcat(line, NEWLINE, []);
    assert line + [NEWLINE] == line + [NEWLINE] + [];
    var before: seq<seq<byte>> := [];
    if data == [] {
      assert data + line == line && whole == line + [NEWLINE] + [];
    } else {
      var front := data[..|data| - 1];
      LastIsNewline(data);
      assert data == front + [NEWLINE] + [] && data + line == front + [NEWLINE] + line;
      assert whole == front + [NEWLINE] + (line + [NEWLINE]);
      SplitConcat(front, NEWLINE, []);
      SplitConcat(front, NEWLINE, line);
      SplitConcat(front, NEWLINE, line + [NEWLINE]);
      before := Split(front, NEWLINE);
    }
    SameFront(CompleteLines(data), data[LastLineEnd(data)..], before, []);
    SameFront(CompleteLines(data + line), (data + line)[LastLineEnd(data + line)..], before, line);
    assert before + ([line] + [[]]) == before + [line] + [[]];
    SameFront(CompleteLines(whole), whole[LastLineEnd(whole)..], before + [line], []);
  }

  lemma LastIsNewline(data: seq<byte>)
    requires !Torn(data) && data != []
    ensures data[|data| - 1] == NEWLINE
  {
  }

  lemma StepKeepsOpenParses(c: Codec, w: World, e: Event)
    requires Faithful(c) && OpenParses(c, w) && Enabled(w, e)
    ensures OpenParses(c, Step(c, w, e))
  {
    hide ParseLedger, LastLineEnd;
    match e {
      case DoAppend(rec, fate) =>
        if c.encode(rec).Some? && w.handle == Open {
          var line := c.encode(rec).value;
          var whole := line + [NEWLINE];
          LineAfterParses(c, w.file.content, line);
          assert w.file.content + line + [NEWLINE] == w.file.content + whole;
          if fate.WriteStopped? {
            if fate.n <= |line| {
              LineAfterParses(c, w.file.content, line[..fate.n]);
              assert whole[..fate.n] == line[..fate.n];
            } else {
              assert whole[..|whole|] == whole;
            }
          }
        }
      case DoOpen(fate) => CutParsesSame(c, w.file.content);
      case _ =>
    }
  }

  /** Whatever bytes the file starts with: the process has it open only while every
      complete line of it parses, over every run. So nothing is ever acknowledged
      behind a line that a restart would refuse. */
  lemma {:induction false} OpenOnlyWhileItParses(c: Codec, w: World, events: seq<Event>)
    requires Faithful(c) && w.handle == Closed && Run(c, w, events)
    ensures OpenParses(c, After(c, w, events))
  {
    hide OpenParses, ParseLedger;
    ClosedParses(c, w);
    RunKeepsOpenParses(c, w, events);
  }

  lemma ClosedParses(c: Codec, w: World)
    requires w.handle == Closed
    ensures OpenParses(c, w)
  {
  }

  lemma {:induction false} RunKeepsOpenParses(c: Codec, w: World, events: seq<Event>)
    requires Faithful(c) && OpenParses(c, w) && Run(c, w, events)
    ensures OpenParses(c, After(c, w, events))
    decreases |events|
  {
    hide OpenParses;
    if events != [] {
      StepKeepsOpenParses(c, w, events[0]);
      RunKeepsOpenParses(c, Step(c, w, events[0]), events[1..]);
    }
  }

  // ---- from an empty file ----

  /** Whatever the run did, the ledger parses: every acknowledged record is
      there, in order, and nothing is that was not submitted. It parses so even
      after a crash at that moment. */
  lemma LedgerIsCrashSafe(c: Codec, events: seq<Event>, kept: nat)
    requires Faithful(c) && Run(c, EMPTY, events)
    requires var w := After(c, EMPTY, events); w.file.synced <= kept <= |w.file.content|
    ensures var w := After(c, EMPTY, events);
      forall data | data == w.file.content || data == w.file.content[..kept] ::
        && ParseLedger(c, data).Ok?
        && Sublist(w.acked, ParseLedger(c, data).value)
        && Sublist(ParseLedger(c, data).value, w.submitted)
  {
    var w := After(c, EMPTY, events);
    assert EMPTY.file.content == Encoded(c, []) + [];
    assert Holds(c, EMPTY, [], [], 0);
    RunKeepsSound(c, EMPTY, events);
    SoundParses(c, w);
    CrashKeepsSound(c, w, kept);
    SoundParses(c, Step(c, w, Crash(kept)));
  }

  lemma SoundParses(c: Codec, w: World)
    requires Faithful(c) && Sound(c, w)
    ensures ParseLedger(c, w.file.content).Ok?
    ensures Sublist(w.acked, ParseLedger(c, w.file.content).value)
    ensures Sublist(ParseLedger(c, w.file.content).value, w.submitted)
  {
    var recs, tail, durable: nat :| Holds(c, w, recs, tail, durable);
    EncodedParses(c, recs, tail);
    SublistExtend(w.acked, recs, durable, |recs|);
    assert recs[..|recs|] == recs;
  }
}
