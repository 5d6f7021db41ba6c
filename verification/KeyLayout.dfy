/** Where backups live in the bucket, printed and parsed
    (internal/backup/store.go, list.go). Names are byte strings, one character a
    byte. */
module KeyLayout {
  import opened Wrappers
  import opened Lines

  // ---- a database name as one key segment ----

  predicate IsByte(c: char) { c < '\U{100}' }

  predicate SegmentSafe(c: char) {
    'a' <= c <= 'z' || 'A' <= c <= 'Z' || '0' <= c <= '9' || c == '_' || c == '-' || c == '.'
  }

  function HexDigit(n: nat): char
    requires n < 16
  {
    if n < 10 then ('0' as int + n) as char else ('A' as int + n - 10) as char
  }

  function Percent(c: char): string
    requires IsByte(c)
  {
    ['%', HexDigit(c as int / 16), HexDigit(c as int % 16)]
  }

  predicate Bytes(s: string) { forall c :: c in s ==> IsByte(c) }

  /** Does the first byte of s stand for itself? A leading dot does not, nor one
      before another. */
  predicate Plain(s: string, first: bool)
    requires s != ""
  {
    SegmentSafe(s[0]) && !(s[0] == '.' && (first || ".." <= s))
  }

  function Segment(db: string, first: bool): string
    requires Bytes(db)
  {
    if db == "" then ""
    else
      assert db[0] in db && forall c :: c in db[1..] ==> c in db;
      (if Plain(db, first) then [db[0]] else Percent(db[0])) + Segment(db[1..], false)
  }

  lemma SegmentCons(c: char, rest: string, first: bool)
    requires IsByte(c) && Bytes(rest)
    ensures Bytes([c] + rest)
    ensures Segment([c] + rest, first) == (if Plain([c] + rest, first) then [c] else Percent(c)) + Segment(rest, false)
  {
    assert ([c] + rest)[1..] == rest;
  }

  method DbSegment(db: string) returns (seg: string)
    requires Bytes(db)
    ensures seg == Segment(db, true)
  {
    hide Segment;
    seg := "";
    assert db[0..] == db;
    for i := 0 to |db|
      invariant Bytes(db[i..])
      invariant Segment(db, true) == seg + Segment(db[i..], i == 0)
    {
      var c := db[i];
      ghost var rest := db[i + 1..];
      assert db[i..] == [c] + rest && c in db && forall x :: x in rest ==> x in db;
      SegmentCons(c, rest, i == 0);
      if SegmentSafe(c) && !(c == '.' && (i == 0 || ".." <= db[i..])) {
        seg := seg + [c];
      } else {
        seg := seg + Percent(c);
      }
    }
    EmptySegment(|db| == 0);
  }

  lemma EmptySegment(first: bool)
    ensures Segment("", first) == ""
  {
  }

  function HexValue(c: char): Option<nat> {
    if '0' <= c <= '9' then Some(c as int - '0' as int)
    else if 'a' <= c <= 'f' then Some(c as int - 'a' as int + 10)
    else if 'A' <= c <= 'F' then Some(c as int - 'A' as int + 10)
    else None
  }

  /** url.PathUnescape, on bytes. */
  function Unescape(s: string): Option<string> {
    if s == "" then Some("")
    else if s[0] != '%' then
      match Unescape(s[1..])
      case None => None
      case Some(r) => Some([s[0]] + r)
    else if |s| < 3 || HexValue(s[1]).None? || HexValue(s[2]).None? then None
    else
      match Unescape(s[3..])
      case None => None
      case Some(r) => Some([(16 * HexValue(s[1]).value + HexValue(s[2]).value) as char] + r)
  }

  function DecodeSegment(seg: string): string {
    match Unescape(seg)
    case Some(d) => d
    case None => seg
  }

  lemma PercentReads(c: char)
    requires IsByte(c)
    ensures var p := Percent(c); HexValue(p[1]) == Some(c as int / 16) && HexValue(p[2]) == Some(c as int % 16)
  {
  }

  lemma PercentStep(c: char, rest: string)
    requires IsByte(c)
    ensures Unescape(Percent(c) + rest) == match Unescape(rest) case None => None case Some(r) => Some([c] + r)
  {
    PercentReads(c);
    assert (Percent(c) + rest)[3..] == rest;
  }

  /** Every database name, of any bytes, decodes to itself. */
  lemma {:induction false} SegmentDecodes(db: string, first: bool)
    requires Bytes(db)
    ensures Unescape(Segment(db, first)) == Some(db)
  {
    if db != "" {
      hide Unescape;
      assert db[0] in db && forall c :: c in db[1..] ==> c in db;
      SegmentDecodes(db[1..], false);
      assert db == [db[0]] + db[1..];
      if Plain(db, first) {
        PlainStep(db[0], Segment(db[1..], false));
      } else {
        PercentStep(db[0], Segment(db[1..], false));
      }
    }
  }

  lemma PlainStep(c: char, rest: string)
    requires c != '%'
    ensures Unescape([c] + rest) == match Unescape(rest) case None => None case Some(r) => Some([c] + r)
  {
    assert ([c] + rest)[1..] == rest;
  }

  /** No level, no leading dot, no step up. */
  lemma {:induction false} SegmentIsOneLevel(db: string, first: bool)
    requires Bytes(db)
    ensures var seg := Segment(db, first);
      && '/' !in seg && (seg == "" <==> db == "")
      && (first && seg != "" ==> seg[0] != '.')
      && (seg != "" && seg[0] == '.' ==> db[0] == '.' && !(".." <= db))
      && forall i :: 0 <= i < |seg| - 1 ==> !(seg[i] == '.' && seg[i + 1] == '.')
  {
    if db != "" {
      assert db[0] in db && forall c :: c in db[1..] ==> c in db;
      SegmentIsOneLevel(db[1..], false);
      var rest := Segment(db[1..], false);
      var head := if Plain(db, first) then [db[0]] else Percent(db[0]);
      var seg := head + rest;
      assert head[|head| - 1] == '.' ==> Plain(db, first);
      if rest != "" && rest[0] == '.' {
        assert db[1] == '.' && db == [db[0]] + db[1..];
        assert db[0] == '.' ==> ".." <= db;
      }
      forall i | 0 <= i < |seg| - 1 ensures !(seg[i] == '.' && seg[i + 1] == '.') {
        if i >= |head| {
          assert seg[i] == rest[i - |head|] && seg[i + 1] == rest[i - |head| + 1];
        }
      }
    }
  }

  predicate Letter(c: char) { 'a' <= c <= 'z' || 'A' <= c <= 'Z' || '0' <= c <= '9' || c == '_' || c == '-' }

  /** A name of letters, digits, underscores and hyphens is its own segment; and a
      segment holds nothing else but dots and percent signs. */
  lemma {:induction false} SegmentIsPlain(db: string, first: bool)
    requires Bytes(db)
    ensures (forall c :: c in db ==> Letter(c)) ==> Segment(db, first) == db
    ensures forall c :: c in Segment(db, first) ==> Letter(c) || c == '.' || c == '%'
  {
    if db != "" {
      assert db[0] in db && forall c :: c in db[1..] ==> c in db;
      assert db == [db[0]] + db[1..];
      SegmentIsPlain(db[1..], false);
      hide Plain, HexDigit;
      PercentIsPlain(db[0]);
      PlainIs(db, first);
      assert forall c :: c in Segment(db, first) ==>
        c in (if Plain(db, first) then [db[0]] else Percent(db[0])) || c in Segment(db[1..], false);
    }
  }

  lemma PlainIs(s: string, first: bool)
    requires s != ""
    ensures Letter(s[0]) ==> Plain(s, first)
    ensures Plain(s, first) ==> Letter(s[0]) || s[0] == '.'
  {
  }

  lemma PercentIsPlain(c: char)
    requires IsByte(c)
    ensures forall d :: d in Percent(c) ==> '0' <= d <= '9' || 'A' <= d <= 'F' || d == '%'
  {
  }

  /** Different names have different segments. */
  lemma SegmentsDiffer(a: string, b: string)
    requires Bytes(a) && Bytes(b) && Segment(a, true) == Segment(b, true)
    ensures a == b
  {
    SegmentDecodes(a, true);
    SegmentDecodes(b, true);
  }

  // ---- object names ----

  predicate Digits(s: string) { forall c :: c in s ==> '0' <= c <= '9' }
  predicate LowerHex(s: string) { forall c :: c in s ==> '0' <= c <= '9' || 'a' <= c <= 'f' }

  /** The grammar of a backup id: a timestamp, and 16 hex digits in newer ones. */
  predicate BackupId(id: string) {
    && (|id| == 15 || (|id| == 32 && id[15] == '-' && LowerHex(id[16..])))
    && Digits(id[..8]) && id[8] == '-' && Digits(id[9..15])
  }

  datatype Ext = TarGz | PgDump | SqlGz | ArchiveGz | RdbGz

  function ExtText(e: Ext): string {
    match e
    case TarGz => ".tar.gz"
    case PgDump => ".pgdump"
    case SqlGz => ".sql.gz"
    case ArchiveGz => ".archive.gz"
    case RdbGz => ".rdb.gz"
  }

  const AGE := ".age"

  function FileName(id: string, e: Ext, encrypted: bool): string {
    id + ExtText(e) + if encrypted then AGE else ""
  }

  function ParseExt(s: string): Option<Ext> {
    if s == ".tar.gz" then Some(TarGz)
    else if s == ".pgdump" then Some(PgDump)
    else if s == ".sql.gz" then Some(SqlGz)
    else if s == ".archive.gz" then Some(ArchiveGz)
    else if s == ".rdb.gz" then Some(RdbGz)
    else None
  }

  predicate EndsWith(s: string, suffix: string) { |s| >= |suffix| && s[|s| - |suffix|..] == suffix }

  /** The extension and encryption that a suffix says. */
  function ParseSuffix(s: string): Option<(Ext, bool)> {
    var encrypted := EndsWith(s, AGE);
    match ParseExt(if encrypted then s[..|s| - 4] else s)
    case None => None
    case Some(e) => Some((e, encrypted))
  }

  datatype Listed = Listed(id: string, ext: Ext, encrypted: bool)

  /** What the listedIDRE pattern makes of a name. */
  function ParseFileName(s: string): Option<Listed> {
    var n := if |s| > 15 && s[15] == '-' then 32 else 15;
    if |s| < n || !BackupId(s[..n]) then None
    else match ParseSuffix(s[n..])
      case None => None
      case Some(p) => Some(Listed(s[..n], p.0, p.1))
  }

  lemma ExtReads(e: Ext)
    ensures ParseExt(ExtText(e)) == Some(e) && !EndsWith(ExtText(e), AGE)
    ensures var s := ExtText(e); s != "" && s[0] == '.' && '/' !in s
  {
    var s := ExtText(e);
    assert s[1] ==
      match e case TarGz => 't' case PgDump => 'p' case SqlGz => 's' case ArchiveGz => 'a' case RdbGz => 'r';
    assert ".tar.gz"[1] == 't' && ".pgdump"[1] == 'p' && ".sql.gz"[1] == 's' && ".archive.gz"[1] == 'a' &&
      ".rdb.gz"[1] == 'r';
    assert s[|s| - 1] == 'z' || s[|s| - 1] == 'p';
    assert AGE[3] == 'e';
  }

  /** Every suffix reads back. */
  lemma SuffixReads(e: Ext, encrypted: bool)
    ensures ParseSuffix(ExtText(e) + if encrypted then AGE else "") == Some((e, encrypted))
    ensures var s := ExtText(e) + (if encrypted then AGE else ""); s != "" && s[0] == '.' && '/' !in s
  {
    hide ExtText, ParseExt;
    ExtReads(e);
    var s := ExtText(e) + if encrypted then AGE else "";
    if encrypted {
      assert s[|s| - 4..] == AGE && s[..|s| - 4] == ExtText(e);
    } else {
      assert s == ExtText(e);
    }
  }

  lemma FileNameReads(id: string, e: Ext, encrypted: bool)
    requires BackupId(id)
    ensures ParseFileName(FileName(id, e, encrypted)) == Some(Listed(id, e, encrypted))
    ensures '/' !in FileName(id, e, encrypted)
  {
    hide ParseSuffix, ExtText;
    SuffixReads(e, encrypted);
    var suffix := ExtText(e) + if encrypted then AGE else "";
    var s := FileName(id, e, encrypted);
    assert s == id + suffix;
    assert s[..|id|] == id && s[|id|..] == suffix;
    assert s[15] == if |id| == 15 then '.' else '-';
    IdHasNoSlash(id);
  }

  lemma IdHasNoSlash(id: string)
    requires BackupId(id)
    ensures '/' !in id
  {
    forall i | 0 <= i < |id| ensures id[i] != '/' {
      assert id[8] == '-' && (|id| == 32 ==> id[15] == '-');
      if i < 8 {
        assert id[i] == id[..8][i] && id[i] in id[..8];
      } else if 9 <= i < 15 {
        assert id[i] == id[9..15][i - 9] && id[i] in id[9..15];
      } else if i >= 16 {
        assert id[i] == id[16..][i - 16] && id[i] in id[16..];
      }
    }
  }

  // ---- keys ----

  /** A series below the base: the accessory's own, or one database's. */
  function SeriesPrefix(app: string, name: string, db: string): string
    requires Bytes(db)
  {
    app + "/accessories/" + name + "/" + if db == "" then "" else "databases/" + Segment(db, true) + "/"
  }

  datatype Kind = Volumes | TeployData | Accessory

  datatype Row = Row(kind: Kind, accessory: string, database: string, id: string, encrypted: bool, restorable: bool)

  /** What a listing makes of a key below the base; validId says whether an id's
      timestamp is a real date. */
  function ClassifyListedKey(app: string, key: string, validId: string -> bool): Option<Row> {
    var segments := Split(key, '/');
    if |segments| < 3 || segments[0] != app then None
    else match ParseFileName(segments[|segments| - 1])
      case None => None
      case Some(f) =>
        if segments[1] == "volumes" then
          if |segments| != 3 || f.ext != TarGz then None
          else Some(Row(Volumes, "", "", f.id, f.encrypted, validId(f.id)))
        else if segments[1] == "teploy" then
          if |segments| != 3 || f.ext != TarGz then None else Some(Row(TeployData, "", "", f.id, f.encrypted, false))
        else if segments[1] == "accessories" then
          if |segments| == 4 then Some(Row(Accessory, segments[2], "", f.id, f.encrypted, validId(f.id)))
          else if |segments| == 6 && segments[3] == "databases" then
            Some(Row(Accessory, segments[2], DecodeSegment(segments[4]), f.id, f.encrypted, validId(f.id)))
          else None
        else None
  }

  predicate OneLevel(s: string) { '/' !in s }

  lemma SplitSegment(a: string, rest: string)
    requires OneLevel(a)
    ensures Split(a + "/" + rest, '/') == [a] + Split(rest, '/')
  {
    SplitConcat(a, '/', rest);
    SplitLine(a, '/');
    assert a + ['/'] + rest == a + "/" + rest;
  }

  lemma FixedLevels()
    ensures OneLevel("accessories") && OneLevel("databases") && OneLevel("volumes")
  {
  }

  /** The levels of a key in a series. */
  lemma SeriesLevels(app: string, name: string, db: string, rest: string)
    requires Bytes(db) && OneLevel(app) && OneLevel(name)
    ensures Split(SeriesPrefix(app, name, db) + rest, '/') ==
      [app, "accessories", name] + (if db == "" then [] else ["databases", Segment(db, true)]) + Split(rest, '/')
  {
    hide Split, Segment;
    FixedLevels();
    var seg := Segment(db, true);
    SegmentIsOneLevel(db, true);
    var below := (if db == "" then "" else "databases/" + seg + "/") + rest;
    if db == "" {
      assert below == rest;
    } else {
      SplitSegment(seg, rest);
      SplitSegment("databases", seg + "/" + rest);
      assert below == "databases" + "/" + (seg + "/" + rest);
    }
    SplitSegment(name, below);
    SplitSegment("accessories", name + "/" + below);
    SplitSegment(app, "accessories" + "/" + (name + "/" + below));
    assert SeriesPrefix(app, name, db) + rest == app + "/" + ("accessories" + "/" + (name + "/" + below));
  }

  /** Print and parse: the key of any backup of any accessory and any database
      name classifies as exactly that backup. */
  lemma ClassifyRecovers(app: string, name: string, db: string, id: string, e: Ext, encrypted: bool,
                         validId: string -> bool)
    requires Bytes(db) && OneLevel(app) && OneLevel(name) && BackupId(id)
    ensures ClassifyListedKey(app, SeriesPrefix(app, name, db) + FileName(id, e, encrypted), validId)
         == Some(Row(Accessory, name, db, id, encrypted, validId(id)))
  {
    hide Split, Segment, SeriesPrefix, FileName, ParseFileName, BackupId;
    var file := FileName(id, e, encrypted);
    FileNameReads(id, e, encrypted);
    SplitLine(file, '/');
    SeriesLevels(app, name, db, file);
    SegmentDecodes(db, true);
  }

  /** A timestamp, and 16 hex digits in newer ids. */
  ghost predicate StampedId(id: string) {
    && (|id| == 15 || |id| == 32)
    && forall i :: 0 <= i < |id| ==>
         if i == 8 || i == 15 then id[i] == '-'
         else '0' <= id[i] <= '9' || (i > 15 && 'a' <= id[i] <= 'f')
  }

  lemma BackupIdIs(id: string)
    ensures BackupId(id) <==> StampedId(id)
  {
    if BackupId(id) {
      forall i | 0 <= i < |id|
        ensures if i == 8 || i == 15 then id[i] == '-'
          else '0' <= id[i] <= '9' || (i > 15 && 'a' <= id[i] <= 'f')
      {
        if i < 8 {
          assert id[..8][i] in id[..8];
        } else if 8 < i < 15 {
          assert id[9..15][i - 9] in id[9..15];
        } else if 15 < i {
          assert id[16..][i - 16] in id[16..];
        }
      }
    }
    if StampedId(id) {
      forall c | c in id[..8] ensures '0' <= c <= '9' {
        var i :| 0 <= i < 8 && id[..8][i] == c;
        assert id[i] == c;
      }
      forall c | c in id[9..15] ensures '0' <= c <= '9' {
        var i :| 0 <= i < 6 && id[9..15][i] == c;
        assert id[i + 9] == c;
      }
    }
  }

  lemma ParsedName(file: string)
    requires ParseFileName(file).Some?
    ensures var f := ParseFileName(file).value;
      BackupId(f.id) && file == f.id + ExtText(f.ext) + if f.encrypted then AGE else ""
  {
    hide BackupId;
    var f := ParseFileName(file).value;
    var rest := file[|f.id|..];
    assert file == f.id + rest;
    if f.encrypted {
      assert rest == rest[..|rest| - 4] + AGE;
    }
  }

  lemma JoinCons(first: string, rest: seq<string>)
    requires rest != []
    ensures Join([first] + rest, '/') == first + "/" + Join(rest, '/')
  {
    JoinConcat([first], rest, '/');
  }

  lemma ThreeLevels(a: string, b: string, c: string)
    ensures Join([a, b, c], '/') == a + "/" + b + "/" + c
  {
    JoinCons(b, [c]);
    JoinCons(a, [b, c]);
    assert [b] + [c] == [b, c] && [a] + [b, c] == [a, b, c];
    assert a + "/" + (b + "/" + c) == a + "/" + b + "/" + c;
  }

  lemma FourLevels(a: string, b: string, c: string, d: string)
    ensures Join([a, b, c, d], '/') == a + "/" + (b + "/" + c) + "/" + d
  {
    hide Join;
    ThreeLevels(b, c, d);
    JoinCons(a, [b, c, d]);
    assert [a] + [b, c, d] == [a, b, c, d];
    assert a + "/" + (b + "/" + c + "/" + d) == a + "/" + (b + "/" + c) + "/" + d;
  }

  lemma SixLevels(a: string, b: string, c: string, d: string, e: string, f: string)
    ensures Join([a, b, c, d, e, f], '/') == a + "/" + (b + "/" + c + "/" + d + "/" + e) + "/" + f
  {
    hide Join;
    FourLevels(c, d, e, f);
    JoinCons(b, [c, d, e, f]);
    JoinCons(a, [b, c, d, e, f]);
    assert [b] + [c, d, e, f] == [b, c, d, e, f] && [a] + [b, c, d, e, f] == [a, b, c, d, e, f];
    assert a + "/" + (b + "/" + (c + "/" + (d + "/" + e) + "/" + f)) ==
      a + "/" + (b + "/" + c + "/" + d + "/" + e) + "/" + f;
  }

  /** Only backups are listed: whatever a listing takes for one is named by its id,
      its extension and its encryption, and lies where a backup of its kind does. */
  lemma ListedIsABackup(app: string, key: string, validId: string -> bool) returns (dir: string, ext: string)
    requires ClassifyListedKey(app, key, validId).Some?
    ensures var row := ClassifyListedKey(app, key, validId).value;
      && key == app + "/" + dir + "/" + (row.id + ext + if row.encrypted then ".age" else "") && StampedId(row.id)
      && ext in [".tar.gz", ".pgdump", ".sql.gz", ".archive.gz", ".rdb.gz"]
      && (row.restorable <==> row.kind != TeployData && validId(row.id))
      && match row.kind
         case Volumes => dir == "volumes" && ext == ".tar.gz"
         case TeployData => dir == "teploy" && ext == ".tar.gz"
         case Accessory =>
           || (dir == "accessories" + "/" + row.accessory && row.database == "")
           || exists seg :: '/' !in seg && row.database == DecodeSegment(seg) &&
                dir == "accessories" + "/" + row.accessory + "/" + "databases" + "/" + seg
  {
    hide BackupId, ParseFileName, Split, DecodeSegment, StampedId, Join;
    var segments := Split(key, '/');
    var file := segments[|segments| - 1];
    var f := ParseFileName(file).value;
    ParsedName(file);
    BackupIdIs(f.id);
    ext := ExtText(f.ext);
    JoinSplit(key, '/');
    if |segments| == 3 {
      dir := segments[1];
      assert segments == [app, dir, file];
      ThreeLevels(app, dir, file);
    } else if |segments| == 4 {
      dir := "accessories" + "/" + segments[2];
      assert segments == [app, "accessories", segments[2], file];
      FourLevels(app, "accessories", segments[2], file);
    } else {
      var seg := segments[4];
      dir := "accessories" + "/" + segments[2] + "/" + "databases" + "/" + seg;
      assert segments == [app, "accessories", segments[2], "databases", seg, file];
      SixLevels(app, "accessories", segments[2], "databases", seg, file);
      SplitPieces(key, '/');
      assert seg in segments;
    }
  }

  /** Two backups share a key only if they are the same backup. */
  lemma KeysDiffer(app: string, name: string, db: string, id: string, e: Ext, encrypted: bool,
                   app2: string, name2: string, db2: string, id2: string, e2: Ext, encrypted2: bool)
    requires Bytes(db) && OneLevel(app) && OneLevel(name) && BackupId(id)
    requires Bytes(db2) && OneLevel(app2) && OneLevel(name2) && BackupId(id2)
    requires SeriesPrefix(app, name, db) + FileName(id, e, encrypted) ==
      SeriesPrefix(app2, name2, db2) + FileName(id2, e2, encrypted2)
    ensures app == app2 && name == name2 && db == db2 && id == id2 && e == e2 && encrypted == encrypted2
  {
    hide Split, Segment, SeriesPrefix, FileName, ParseFileName, BackupId, ClassifyListedKey;
    var file, file2 := FileName(id, e, encrypted), FileName(id2, e2, encrypted2);
    FileNameReads(id, e, encrypted);
    FileNameReads(id2, e2, encrypted2);
    SplitLine(file, '/');
    SplitLine(file2, '/');
    SeriesLevels(app, name, db, file);
    SeriesLevels(app2, name2, db2, file2);
    var ls := Split(SeriesPrefix(app, name, db) + file, '/');
    assert ls[0] == app && ls[0] == app2 && ls[|ls| - 1] == file && ls[|ls| - 1] == file2;
    ClassifyRecovers(app, name, db, id, e, encrypted, _ => true);
    ClassifyRecovers(app2, name2, db2, id2, e2, encrypted2, _ => true);
  }

  // ---- what must never read as a backup ----

  const INCOMING := ".incoming"

  /** A sidecar lies one level below its series, whatever it is called. */
  lemma SidecarsAreNotBackups(app: string, name: string, db: string, dir: string, file: string, validId: string -> bool)
    requires Bytes(db) && OneLevel(app) && OneLevel(name) && OneLevel(dir) && OneLevel(file)
    ensures ClassifyListedKey(app, SeriesPrefix(app, name, db) + dir + "/" + file, validId) == None
  {
    hide Split, Segment, SeriesPrefix, ParseFileName;
    SplitLine(file, '/');
    SplitSegment(dir, file);
    SeriesLevels(app, name, db, dir + "/" + file);
    assert SeriesPrefix(app, name, db) + dir + "/" + file == SeriesPrefix(app, name, db) + (dir + "/" + file);
  }

  lemma AppLevels(app: string, prefix: string, rest: string)
    requires OneLevel(app) && OneLevel(prefix)
    ensures Split(app + "/" + prefix + "/" + rest, '/') == [app, prefix] + Split(rest, '/')
  {
    hide Split;
    SplitSegment(prefix, rest);
    SplitSegment(app, prefix + "/" + rest);
    assert app + "/" + prefix + "/" + rest == app + "/" + (prefix + "/" + rest);
    assert [app] + ([prefix] + Split(rest, '/')) == [app, prefix] + Split(rest, '/');
  }

  /** A volume backup reads back; the server's own data beside it is listed, but is
      never restorable. */
  lemma VolumesRecover(app: string, id: string, encrypted: bool, validId: string -> bool)
    requires OneLevel(app) && BackupId(id)
    ensures var file := FileName(id, TarGz, encrypted);
      && ClassifyListedKey(app, app + "/volumes/" + file, validId) ==
        Some(Row(Volumes, "", "", id, encrypted, validId(id)))
      && ClassifyListedKey(app, app + "/teploy/" + file, validId) == Some(Row(TeployData, "", "", id, encrypted, false))
  {
    hide Split, ParseFileName, FileName, BackupId;
    FixedLevels();
    var file := FileName(id, TarGz, encrypted);
    FileNameReads(id, TarGz, encrypted);
    SplitLine(file, '/');
    AppLevels(app, "volumes", file);
    assert OneLevel("teploy");
    AppLevels(app, "teploy", file);
    assert app + "/volumes/" + file == app + "/" + "volumes" + "/" + file;
    assert app + "/teploy/" + file == app + "/" + "teploy" + "/" + file;
  }

  /** A sidecar of the volumes lies one level below them, and the members of a
      recovery bundle are under another prefix. */
  lemma AppSidecarsAreNotBackups(app: string, prefix: string, dir: string, file: string, validId: string -> bool)
    requires OneLevel(app) && OneLevel(prefix) && OneLevel(dir) && OneLevel(file)
    ensures prefix != "accessories" ==>
      ClassifyListedKey(app, app + "/" + prefix + "/" + dir + "/" + file, validId) == None
    ensures prefix !in ["volumes", "teploy", "accessories"] ==>
      ClassifyListedKey(app, app + "/" + prefix + "/" + file, validId) == None
  {
    hide Split, ParseFileName;
    SplitLine(file, '/');
    SplitSegment(dir, file);
    AppLevels(app, prefix, file);
    AppLevels(app, prefix, dir + "/" + file);
    assert app + "/" + prefix + "/" + dir + "/" + file == app + "/" + prefix + "/" + (dir + "/" + file);
  }

  /** An upload that is not verified yet is under no app's namespace. */
  lemma IncomingIsNotABackup(app: string, rel: string, validId: string -> bool)
    requires app != INCOMING
    ensures ClassifyListedKey(app, INCOMING + "/" + rel, validId) == None
  {
    hide Split, ParseFileName;
    assert OneLevel(INCOMING);
    SplitSegment(INCOMING, rel);
  }

  // ---- the base ----

  /** The part of a key below the configured prefix, if it is this config's. */
  function RelToBase(prefix: string, key: string): Option<string> {
    if prefix == "" then Some(key)
    else if prefix + "/" <= key then Some(key[|prefix| + 1..])
    else None
  }

  /** A key below the bucket. */
  function BucketKey(prefix: string, rel: string): string { if prefix == "" then rel else prefix + "/" + rel }

  lemma BaseReads(prefix: string, rel: string)
    ensures RelToBase(prefix, BucketKey(prefix, rel)) == Some(rel)
  {
    assert BucketKey(prefix, rel)[..|BucketKey(prefix, rel)| - |rel|] + rel == BucketKey(prefix, rel);
  }

  /** The URI of a key below the base. */
  function UnderBase(bucket: string, prefix: string, rel: string): string {
    "s3://" + (if prefix == "" then bucket else bucket + "/" + prefix) + "/" + rel
  }

  /** Where an upload waits until it is verified, from the URI it will have; None
      for a URI outside the base, which no caller builds. */
  function IncomingKey(bucket: string, prefix: string, uri: string): Option<string> {
    var base := UnderBase(bucket, prefix, "");
    if base <= uri then Some(base + INCOMING + "/" + uri[|base|..]) else None
  }

  /** An upload waits at the same path under the one incoming tree, where no
      listing of its app takes it for a backup. */
  lemma IncomingMirrors(bucket: string, prefix: string, rel: string)
    ensures IncomingKey(bucket, prefix, UnderBase(bucket, prefix, rel)) ==
      Some(UnderBase(bucket, prefix, INCOMING + "/" + rel))
    ensures RelToBase(prefix, BucketKey(prefix, INCOMING + "/" + rel)) == Some(INCOMING + "/" + rel)
  {
    var base := UnderBase(bucket, prefix, "");
    assert UnderBase(bucket, prefix, rel) == base + rel;
    assert UnderBase(bucket, prefix, INCOMING + "/" + rel) == base + INCOMING + "/" + rel;
    BaseReads(prefix, INCOMING + "/" + rel);
  }
}
