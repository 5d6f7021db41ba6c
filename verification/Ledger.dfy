/** The webhook admission ledger on disk (internal/autodeploy/ledger.go):
    one line a record, appended and synced before it is acknowledged. */
module Ledger {
  import opened Wrappers
  import opened Lines

  newtype byte = b: int | 0 <= b < 256

  const NEWLINE: byte := 10

  datatype Kind = Admitted | Superseded | Processed | Unknown(name: string)

  datatype AdmissionRecord = AdmissionRecord(
    kind: Kind, id: string, delivery: string, digest: string, app: string, branch: string,
    commit: string, received: int, supersededBy: string, at: int)

  /** The JSON codec and the test for a line of white space. */
  datatype Codec = Codec(
    encode: AdmissionRecord -> Option<seq<byte>>,
    decode: seq<byte> -> Option<AdmissionRecord>,
    blank: seq<byte> -> bool)

  /** Decoding inverts encoding, and an encoding is one line that is not blank:
      JSON escapes control characters (section 7 of RFC 8259). */
  ghost predicate Faithful(c: Codec) {
    forall r :: c.encode(r).Some? ==>
      && c.decode(c.encode(r).value) == Some(r)
      && NEWLINE !in c.encode(r).value
      && !c.blank(c.encode(r).value)
  }

  // ---- parsing ----

  function ParseLines(c: Codec, lines: seq<seq<byte>>, n: nat): Result<seq<AdmissionRecord>, nat> {
    if lines == [] then Ok([])
    else if c.blank(lines[0]) then ParseLines(c, lines[1..], n + 1)
    else match c.decode(lines[0])
      case None => Err(n)
      case Some(rec) =>
        if rec.kind.Unknown? then Err(n)
        else match ParseLines(c, lines[1..], n + 1)
          case Ok(recs) => Ok([rec] + recs)
          case Err(e) => Err(e)
  }

  predicate Torn(data: seq<byte>) {
    data != [] && data[|data| - 1] != NEWLINE
  }

  /** The lines that are parsed: all of them but a torn last one. */
  function CompleteLines(data: seq<byte>): seq<seq<byte>> {
    if data == [] then []
    else if Torn(data) then var ls := Split(data, NEWLINE); ls[..|ls| - 1]
    else Split(data[..|data| - 1], NEWLINE)
  }

  function ParseLedger(c: Codec, data: seq<byte>): Result<seq<AdmissionRecord>, nat> {
    ParseLines(c, CompleteLines(data), 1)
  }

  lemma {:induction false} ParseLinesConcat(c: Codec, a: seq<seq<byte>>, b: seq<seq<byte>>, n: nat)
    requires ParseLines(c, a, n).Ok?
    ensures ParseLines(c, a + b, n) == match ParseLines(c, b, n + |a|)
              case Ok(recs) => Ok(ParseLines(c, a, n).value + recs)
              case Err(e) => Err(e)
  {
    if a == [] {
      assert a + b == b;
      if ParseLines(c, b, n).Ok? {
        assert [] + ParseLines(c, b, n).value == ParseLines(c, b, n).value;
      }
    } else {
      assert (a + b)[1..] == a[1..] + b;
      ParseLinesConcat(c, a[1..], b, n + 1);
      if !c.blank(a[0]) && ParseLines(c, b, n + |a|).Ok? {
        var rec, rest, more := c.decode(a[0]).value, ParseLines(c, a[1..], n + 1).value,
          ParseLines(c, b, n + |a|).value;
        assert [rec] + rest + more == [rec] + (rest + more);
      }
    }
  }

  /** A line that does not parse stops the whole parse. */
  lemma {:induction false} ParseLinesPrefix(c: Codec, a: seq<seq<byte>>, b: seq<seq<byte>>, n: nat)
    requires ParseLines(c, a, n).Err?
    ensures ParseLines(c, a + b, n) == ParseLines(c, a, n)
  {
    if a != [] {
      assert (a + b)[1..] == a[1..] + b;
      if c.blank(a[0]) || (c.decode(a[0]).Some? && !c.decode(a[0]).value.kind.Unknown?) {
        ParseLinesPrefix(c, a[1..], b, n + 1);
      }
    }
  }

  lemma ParseOneLine(c: Codec, line: seq<byte>, n: nat)
    ensures ParseLines(c, [line], n) ==
      if c.blank(line) then Ok([])
      else if c.decode(line).None? || c.decode(line).value.kind.Unknown? then Err(n)
      else Ok([c.decode(line).value])
  {
    assert [line][1..] == [];
    assert ParseLines(c, [], n + 1) == Ok([]);
    if c.decode(line).Some? {
      assert [c.decode(line).value] + [] == [c.decode(line).value];
    }
  }

  method Parse(c: Codec, data: seq<byte>) returns (r: Result<seq<AdmissionRecord>, nat>)
    ensures r == ParseLedger(c, data)
  {
    if data == [] {
      return Ok([]);
    }
    var torn := data[|data| - 1] != NEWLINE;
    var lines := Split(if torn then data else data[..|data| - 1], NEWLINE);
    if torn {
      lines := lines[..|lines| - 1];
    }
    var recs := [];
    for i := 0 to |lines|
      invariant ParseLines(c, lines[..i], 1) == Ok(recs)
    {
      assert lines[..i] + [lines[i]] == lines[..i + 1];
      assert lines[..i + 1] + lines[i + 1..] == lines;
      ParseLinesConcat(c, lines[..i], [lines[i]], 1);
      ParseOneLine(c, lines[i], 1 + i);
      if c.blank(lines[i]) {
        assert recs + [] == recs;
        continue;
      }
      var rec := c.decode(lines[i]);
      if rec.None? || rec.value.kind.Unknown? {
        ParseLinesPrefix(c, lines[..i + 1], lines[i + 1..], 1);
        return Err(i + 1);
      }
      recs := recs + [rec.value];
    }
    assert lines[..|lines|] == lines;
    r := Ok(recs);
  }

  // ---- what is parsed ----

  /** A line that holds no record and is not blank. */
  predicate Corrupt(c: Codec, line: seq<byte>) {
    !c.blank(line) && (c.decode(line).None? || c.decode(line).value.kind.Unknown?)
  }

  /** How many of the lines are not blank. */
  function Written(c: Codec, lines: seq<seq<byte>>): nat {
    if lines == [] then 0 else Written(c, lines[..|lines| - 1]) + if c.blank(lines[|lines| - 1]) then 0 else 1
  }

  /** The records are those of the lines that are not blank, in order. */
  ghost predicate RecordsOf(c: Codec, lines: seq<seq<byte>>, recs: seq<AdmissionRecord>) {
    && |recs| == Written(c, lines)
    && forall i :: 0 <= i < |lines| && !c.blank(lines[i]) ==>
      Written(c, lines[..i]) < |recs| && c.decode(lines[i]) == Some(recs[Written(c, lines[..i])])
  }

  /** The n-th line is the first that is corrupt. */
  ghost predicate FirstCorrupt(c: Codec, lines: seq<seq<byte>>, n: int) {
    0 <= n < |lines| && Corrupt(c, lines[n]) && forall i :: 0 <= i < n ==> !Corrupt(c, lines[i])
  }

  lemma RecordsOfMore(c: Codec, lines: seq<seq<byte>>, recs: seq<AdmissionRecord>, line: seq<byte>)
    requires RecordsOf(c, lines, recs) && !Corrupt(c, line)
    ensures RecordsOf(c, lines + [line], if c.blank(line) then recs else recs + [c.decode(line).value])
  {
    var all := lines + [line];
    var more := if c.blank(line) then recs else recs + [c.decode(line).value];
    assert all[..|lines|] == lines;
    forall i | 0 <= i < |all| && !c.blank(all[i])
      ensures Written(c, all[..i]) < |more| && c.decode(all[i]) == Some(more[Written(c, all[..i])])
    {
      if i < |lines| {
        assert all[..i] == lines[..i];
      }
    }
  }

  /** Lines are refused exactly when one is corrupt, with the number of the first
      that is. */
  lemma {:induction false} ParsedExactly(c: Codec, lines: seq<seq<byte>>, n: nat)
    ensures var r := ParseLines(c, lines, n);
      if r.Err? then FirstCorrupt(c, lines, r.error - n)
      else RecordsOf(c, lines, r.value) && forall l :: l in lines ==> !Corrupt(c, l)
    decreases |lines|
  {
    hide ParseLines, RecordsOf;
    if lines == [] {
      NothingParses(c, n);
    } else {
      var front, last := lines[..|lines| - 1], lines[|lines| - 1];
      assert lines == front + [last];
      ParsedExactly(c, front, n);
      ParseOneLine(c, last, n + |front|);
      var r := ParseLines(c, front, n);
      if r.Ok? {
        ParseLinesConcat(c, front, [last], n);
        if !Corrupt(c, last) {
          RecordsOfMore(c, front, r.value, last);
          assert r.value + [] == r.value;
        }
      } else {
        ParseLinesPrefix(c, front, [last], n);
      }
    }
  }

  lemma NothingParses(c: Codec, n: nat)
    ensures ParseLines(c, [], n) == Ok([]) && RecordsOf(c, [], [])
  {
  }

  /** The complete lines, each with its newline, and the rest of the data. */
  lemma CompleteLinesAre(data: seq<byte>)
    ensures forall l :: l in CompleteLines(data) ==> NEWLINE !in l
    ensures Join(CompleteLines(data) + [data[LastLineEnd(data)..]], NEWLINE) == data
  {
    SplitIsComplete(data);
    SplitPieces(data, NEWLINE);
    JoinSplit(data, NEWLINE);
  }

  lemma SameFront<T>(a: seq<T>, x: T, b: seq<T>, y: T)
    requires a + [x] == b + [y]
    ensures a == b
  {
    assert a == (a + [x])[..|a + [x]| - 1] && b == (b + [y])[..|b + [y]| - 1];
  }

  lemma SplitIsComplete(data: seq<byte>)
    ensures Split(data, NEWLINE) == CompleteLines(data) + [data[LastLineEnd(data)..]]
  {
    hide Split, LastLineEnd, CompleteLines, Torn;
    var n := LastLineEnd(data);
    var tail := data[n..];
    SplitLine(tail, NEWLINE);
    if n == 0 {
      assert data == tail;
      NoLineComplete(data);
    } else {
      var front := data[..n - 1];
      assert data == front + [NEWLINE] + tail;
      SplitConcat(front, NEWLINE, tail);
      LinesComplete(data, front, tail);
    }
  }

  lemma NoLineComplete(data: seq<byte>)
    requires Split(data, NEWLINE) == [data] && LastLineEnd(data) == 0
    ensures CompleteLines(data) == []
  {
    hide Split, LastLineEnd;
    WholeOrTorn(data);
    assert [data][..0] == [];
  }

  lemma LinesComplete(data: seq<byte>, front: seq<byte>, tail: seq<byte>)
    requires data == front + [NEWLINE] + tail && LastLineEnd(data) == |front| + 1
    requires Split(data, NEWLINE) == Split(front, NEWLINE) + [tail]
    ensures CompleteLines(data) == Split(front, NEWLINE)
  {
    hide Split, LastLineEnd;
    WholeOrTorn(data);
    var lines := Split(front, NEWLINE);
    if Torn(data) {
      assert (lines + [tail])[..|lines|] == lines;
    } else {
      assert data[..|data| - 1] == front;
    }
  }

  lemma WholeOrTorn(data: seq<byte>)
    ensures LastLineEnd(data) == |data| <==> !Torn(data)
  {
  }

  lemma CutIsWhole(data: seq<byte>)
    ensures !Torn(data[..LastLineEnd(data)])
  {
  }

  /** Cutting the torn line off cuts off nothing that is parsed. */
  lemma CutParsesSame(c: Codec, data: seq<byte>)
    ensures var kept := data[..LastLineEnd(data)]; !Torn(kept) && ParseLedger(c, kept) == ParseLedger(c, data)
  {
    hide ParseLines, Split, LastLineEnd, Torn, CompleteLines;
    var n := LastLineEnd(data);
    var kept := data[..n];
    WholeOrTorn(kept);
    CutIsWhole(data);
    SplitIsComplete(data);
    SplitIsComplete(kept);
    if n > 0 {
      var front, tail := data[..n - 1], data[n..];
      assert data == front + [NEWLINE] + tail && kept == front + [NEWLINE] + [];
      SplitConcat(front, NEWLINE, tail);
      SplitConcat(front, NEWLINE, []);
      SplitLine(tail, NEWLINE);
      SplitLine([], NEWLINE);
      SameFront(CompleteLines(data), tail, Split(front, NEWLINE), tail);
      SameFront(CompleteLines(kept), kept[LastLineEnd(kept)..], Split(front, NEWLINE), []);
    } else {
      SplitLine(data, NEWLINE);
      SplitLine([], NEWLINE);
      assert data[0..] == data && kept == [];
      SameFront(CompleteLines(data), data, [], data);
      SameFront(CompleteLines(kept), kept[LastLineEnd(kept)..], [], []);
    }
  }

  // ---- the file ----

  /** A file, and how much of it a crash cannot take back. */
  datatype FileState = FileState(content: seq<byte>, synced: nat)

  /** How one append can go: the write stops after n bytes, the sync fails, or
      both succeed. */
  datatype AppendFate = WriteStopped(n: nat) | SyncFailed | Durable

  datatype AppendResult = AppendResult(file: FileState, failed: bool, ok: bool)

  function Min(a: nat, b: nat): nat { if a < b then a else b }

  function AppendStep(c: Codec, f: FileState, failed: bool, rec: AdmissionRecord, fate: AppendFate): AppendResult {
    var line := c.encode(rec);
    if line.None? || failed then AppendResult(f, failed, false)
    else
      var bytes := line.value + [NEWLINE];
      match fate
      case WriteStopped(n) => AppendResult(FileState(f.content + bytes[..Min(n, |bytes|)], f.synced), true, false)
      case SyncFailed => AppendResult(FileState(f.content + bytes, f.synced), true, false)
      case Durable => AppendResult(FileState(f.content + bytes, |f.content| + |bytes|), false, true)
  }

  /** The length of the content up to and including its last newline. */
  function LastLineEnd(data: seq<byte>): (n: nat)
    ensures n <= |data| && NEWLINE !in data[n..]
    ensures n > 0 ==> data[n - 1] == NEWLINE
  {
    if data == [] || data[|data| - 1] == NEWLINE then |data| else LastLineEnd(data[..|data| - 1])
  }

  /** How opening can go: reading, truncating or syncing fails, or all succeed. */
  datatype OpenFate = ReadFails | TruncateFails | TruncateUnsynced | Opens

  datatype OpenResult = OpenResult(file: FileState, isOpen: bool)

  function OpenStep(c: Codec, f: FileState, fate: OpenFate): OpenResult {
    if fate == ReadFails || ParseLedger(c, f.content).Err? then OpenResult(f, false)
    else if !Torn(f.content) then OpenResult(f, true)
    else
      var kept := f.content[..LastLineEnd(f.content)];
      match fate
      case TruncateUnsynced => OpenResult(FileState(kept, Min(f.synced, |kept|)), false)
      case Opens => OpenResult(FileState(kept, |kept|), true)
      case _ => OpenResult(f, false)
  }

  class Disk {
    var content: seq<byte>
    var synced: nat

    function State(): FileState
      reads this
    {
      FileState(content, synced)
    }
  }

  class FileLedger {
    const disk: Disk
    var failed: bool

    constructor (disk: Disk)
      ensures this.disk == disk && !failed
    {
      this.disk := disk;
      failed := false;
    }

    /** A failure is remembered: after it, nothing is written any more. An append
        succeeds exactly when the record can be encoded, nothing failed before, and
        its line is written and synced. */
    method Append(c: Codec, rec: AdmissionRecord, fate: AppendFate) returns (ok: bool)
      modifies this, disk
      ensures ok <==> c.encode(rec).Some? && !old(failed) && fate.Durable?
      ensures ok ==> disk.content == old(disk.content) + c.encode(rec).value + [NEWLINE]
      ensures ok ==> disk.synced == |disk.content|
      ensures c.encode(rec).None? || old(failed) ==> disk.State() == old(disk.State())
      ensures failed <==> old(failed) || (c.encode(rec).Some? && !ok)
      ensures AppendResult(disk.State(), failed, ok) == AppendStep(c, old(disk.State()), old(failed), rec, fate)
    {
      var line := c.encode(rec);
      if line.None? {
        return false;
      }
      var bytes := line.value + [NEWLINE];
      if failed {
        return false;
      }
      ok := true;
      match fate {
        case WriteStopped(n) =>
          disk.content := disk.content + bytes[..Min(n, |bytes|)];
          ok := false;
        case SyncFailed =>
          disk.content := disk.content + bytes;
          ok := false;
        case Durable =>
          disk.content := disk.content + bytes;
          disk.synced := |disk.content|;
      }
      if !ok {
        failed := true;
      }
    }
  }

  /** A ledger is opened exactly when it is read, every complete line of it parses,
      and a torn last line, if there is one, is cut off and the cut synced. One with
      a line that does not parse is left as it is. */
  method OpenLedger(c: Codec, disk: Disk, fate: OpenFate) returns (l: FileLedger?)
    modifies disk
    ensures l != null <==>
      && fate != ReadFails && ParseLedger(c, old(disk.content)).Ok?
      && (old(disk.content) == [] || old(disk.content)[|old(disk.content)| - 1] == NEWLINE || fate == Opens)
    ensures ParseLedger(c, old(disk.content)).Err? ==> disk.State() == old(disk.State())
    ensures l != null ==> disk.content == old(disk.content)[..LastLineEnd(old(disk.content))]
    ensures OpenResult(disk.State(), l != null) == OpenStep(c, old(disk.State()), fate)
    ensures l != null ==> fresh(l) && l.disk == disk && !l.failed
  {
    l := null;
    if fate == ReadFails {
      return;
    }
    var data := disk.content;
    var parsed := Parse(c, data);
    if parsed.Err? {
      return;
    }
    if data != [] && data[|data| - 1] != NEWLINE {
      if fate == TruncateFails {
        return;
      }
      disk.content := data[..LastLineEnd(data)];
      if fate == TruncateUnsynced {
        disk.synced := Min(disk.synced, |disk.content|);
        return;
      }
      disk.synced := |disk.content|;
    }
    l := new FileLedger(disk);
  }
}
