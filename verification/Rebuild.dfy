/** sylo/indexer/rebuild.py: the index made again from the text files. */
module Rebuild {
  import opened Wrappers
  import opened Utf8
  import opened Lex
  import opened Parser
  import opened Envelope
  import Lines

  datatype LogFile = LogFile(stem: string, content: bytes)
  datatype DeviceDir = DeviceDir(name: string, files: seq<LogFile>)

  type Index = map<string, MonthDb>

  // ----- one file -----

  /** Text mode reads `\r\n` and `\r` as line ends too. */
  function UniversalNewlines(text: string): string {
    if text == [] then []
    else if text[0] != '\r' then [text[0]] + UniversalNewlines(text[1..])
    else if |text| > 1 && text[1] == '\n' then UniversalNewlines(text[1..])
    else "\n" + UniversalNewlines(text[1..])
  }

  // The first character, and what it becomes.
  function FirstEnd(text: string): string
    requires text != []
  {
    if text[0] != '\r' then [text[0]] else if |text| > 1 && text[1] == '\n' then [] else "\n"
  }

  lemma {:induction false} Peel(text: string)
    requires text != []
    ensures UniversalNewlines(text) == FirstEnd(text) + UniversalNewlines(text[1..])
  {
    assert [] + UniversalNewlines(text[1..]) == UniversalNewlines(text[1..]);
  }

  lemma {:induction false} PeelBefore(a: string, x: string)
    requires a != [] && x != []
    ensures UniversalNewlines(a) == FirstEnd(a) + UniversalNewlines(a[1..])
    ensures UniversalNewlines(a + x) == (if |a| == 1 && a[0] == '\r' && x[0] == '\n' then [] else FirstEnd(a)) + UniversalNewlines(a[1..] + x)
  {
    hide UniversalNewlines;
    Peel(a);
    Peel(a + x);
    assert (a + x)[1..] == a[1..] + x;
  }

  lemma {:induction false} NoText()
    ensures UniversalNewlines([]) == []
  {
  }

  lemma {:induction false} OrdinaryLineEnd(a: string, b: string)
    ensures UniversalNewlines(a + "\n" + b) == UniversalNewlines(a) + (if a != [] && a[|a| - 1] == '\r' then [] else "\n") + UniversalNewlines(b)
  {
    hide UniversalNewlines;
    var x := "\n" + b;
    assert a + "\n" + b == a + x && x[1..] == b;
    NoText();
    if a == [] {
      assert a + x == x && UniversalNewlines(a) + "\n" == "\n";
      Peel(x);
    } else {
      OrdinaryLineEnd(a[1..], b);
      assert a[1..] + "\n" + b == a[1..] + x;
      PeelBefore(a, x);
    }
  }

  lemma {:induction false} ReturnNewline(a: string, b: string)
    ensures UniversalNewlines(a + "\r\n" + b) == UniversalNewlines(a) + "\n" + UniversalNewlines(b)
  {
    hide UniversalNewlines;
    var x := "\r\n" + b;
    assert a + "\r\n" + b == a + x && x[1..] == "\n" + b && ("\n" + b)[1..] == b;
    NoText();
    if a == [] {
      assert a + x == x && UniversalNewlines(a) + "\n" == "\n";
      Peel(x);
      Peel("\n" + b);
      assert [] + UniversalNewlines("\n" + b) == UniversalNewlines("\n" + b);
    } else {
      ReturnNewline(a[1..], b);
      assert a[1..] + "\r\n" + b == a[1..] + x;
      PeelBefore(a, x);
    }
  }

  lemma {:induction false} ReturnAlone(a: string, b: string)
    requires b == [] || b[0] != '\n'
    ensures UniversalNewlines(a + "\r" + b) == UniversalNewlines(a) + "\n" + UniversalNewlines(b)
  {
    hide UniversalNewlines;
    var x := "\r" + b;
    assert a + "\r" + b == a + x && x[1..] == b;
    NoText();
    if a == [] {
      assert a + x == x && UniversalNewlines(a) + "\n" == "\n";
      Peel(x);
    } else {
      ReturnAlone(a[1..], b);
      assert a[1..] + "\r" + b == a[1..] + x;
      PeelBefore(a, x);
    }
  }

  lemma {:induction false} NoReturnLeft(text: string)
    ensures '\r' !in UniversalNewlines(text)
  {
    if text != [] {
      NoReturnLeft(text[1..]);
    }
  }

  /** No carriage return is left, and each of the three line ends ends one line. */
  lemma {:induction false} NewlinesAreUniversal(a: string, b: string)
    ensures '\r' !in UniversalNewlines(a)
    ensures UniversalNewlines(a + "\r\n" + b) == UniversalNewlines(a) + "\n" + UniversalNewlines(b)
    ensures b == [] || b[0] != '\n' ==> UniversalNewlines(a + "\r" + b) == UniversalNewlines(a) + "\n" + UniversalNewlines(b)
    ensures a == [] || a[|a| - 1] != '\r' ==> UniversalNewlines(a + "\n" + b) == UniversalNewlines(a) + "\n" + UniversalNewlines(b)
  {
    hide UniversalNewlines;
    NoReturnLeft(a);
    ReturnNewline(a, b);
    OrdinaryLineEnd(a, b);
    if b == [] || b[0] != '\n' {
      ReturnAlone(a, b);
    }
  }

  function TextLines(content: bytes): seq<string> {
    Lines.Split(UniversalNewlines(Decode(content)), '\n')
  }

  /** A line with a time and a payload gives a row; any other line is skipped. */
  function RowOfLine(sourceIp: string, line: string): seq<Row> {
    var n := Lines.IndexOf(line, ' ');
    if n == |line| then [] else [Row(line[..n], sourceIp, ParseSyslog(Encode(line[n + 1..])))]
  }

  /** Which lines those are, and what row: the text up to the first space is the time, the rest of
      the line the payload. */
  lemma {:induction false} LineParts(sourceIp: string, line: string, time: string, payload: string)
    ensures ' ' !in line ==> RowOfLine(sourceIp, line) == []
    ensures ' ' !in time && line == time + " " + payload ==> RowOfLine(sourceIp, line) == [Row(time, sourceIp, ParseSyslog(Encode(payload)))]
  {
    hide ParseSyslog;
    if ' ' !in time && line == time + " " + payload {
      Lines.IndexOfUnique(time, ' ', payload);
      assert line == time + [' '] + payload;
      assert line[..|time|] == time && line[|time| + 1..] == payload;
    }
  }

  function RowsOfLines(sourceIp: string, lines: seq<string>): seq<Row> {
    if lines == [] then [] else RowsOfLines(sourceIp, lines[..|lines| - 1]) + RowOfLine(sourceIp, lines[|lines| - 1])
  }

  function FileRows(sourceIp: string, content: bytes): seq<Row> {
    RowsOfLines(sourceIp, TextLines(content))
  }

  method InsertLine(db: MonthDb, line: string, sourceIp: string) returns (db': MonthDb, inserted: nat)
    ensures db'.messages == db.messages + RowOfLine(sourceIp, line)
    ensures inserted == |RowOfLine(sourceIp, line)|
    ensures db.InSync() ==> db'.InSync()
  {
    hide ParseSyslog, Encode, MonthDb.InSync;
    var n := Lines.IndexOf(line, ' ');
    if line == [] || n == |line| {
      return db, 0;
    }
    var fields := ParseSyslog(Encode(line[n + 1..]));
    var rowid;
    db', rowid := InsertMessage(db, Row(line[..n], sourceIp, fields));
    inserted := 1;
  }

  method RebuildFile(db: MonthDb, content: bytes, sourceIp: string) returns (db': MonthDb, inserted: nat)
    ensures db'.messages == db.messages + FileRows(sourceIp, content)
    ensures inserted == |FileRows(sourceIp, content)|
    ensures db.InSync() ==> db'.InSync()
  {
    hide RowOfLine, TextLines;
    var lines := TextLines(content);
    db', inserted := db, 0;
    for i := 0 to |lines|
      invariant db'.messages == db.messages + RowsOfLines(sourceIp, lines[..i])
      invariant inserted == |RowsOfLines(sourceIp, lines[..i])|
      invariant db.InSync() ==> db'.InSync()
    {
      assert lines[..i + 1][..i] == lines[..i];
      var k;
      db', k := InsertLine(db', lines[i], sourceIp);
      inserted := inserted + k;
    }
    assert lines[..|lines|] == lines;
  }

  // ----- all files -----

  /** A day file with the directory it is in. */
  datatype Entry = Entry(dir: string, stem: string, content: bytes)

  function MonthKey(e: Entry): string { Prefix(e.stem, 7) }

  function EntriesOf(dir: string, files: seq<LogFile>): (es: seq<Entry>)
    ensures |es| == |files|
    ensures forall i :: 0 <= i < |files| ==> es[i] == Entry(dir, files[i].stem, files[i].content)
  {
    seq(|files|, i requires 0 <= i < |files| => Entry(dir, files[i].stem, files[i].content))
  }

  function Listing(dataDir: seq<DeviceDir>): seq<Entry> {
    if dataDir == [] then [] else
      var n := |dataDir| - 1;
      Listing(dataDir[..n]) + EntriesOf(dataDir[n].name, dataDir[n].files)
  }

  /** Every file of every directory, and nothing else, directory by directory. */
  lemma {:induction false} ListingParts(a: seq<DeviceDir>, b: seq<DeviceDir>, e: Entry)
    ensures Listing(a + b) == Listing(a) + Listing(b)
    ensures |a| == 1 ==> Listing(a) == EntriesOf(a[0].name, a[0].files)
    ensures e in Listing(a) <==>
            exists d, f :: d in a && f in d.files && e == Entry(d.name, f.stem, f.content)
    decreases |a| + |b|
  {
    if b != [] {
      var n := |b| - 1;
      ListingParts(a, b[..n], e);
      assert (a + b)[..|a| + n] == a + b[..n];
    } else {
      assert a + b == a;
      if a != [] {
        var n := |a| - 1;
        ListingParts(a[..n], [], e);
        assert a == a[..n] + [a[n]];
        EntriesAre(a[n].name, a[n].files, e);
      }
    }
  }

  lemma {:induction false} EntriesAre(dir: string, files: seq<LogFile>, e: Entry)
    ensures e in EntriesOf(dir, files) <==> exists f :: f in files && e == Entry(dir, f.stem, f.content)
  {
    if e in EntriesOf(dir, files) {
      var i :| 0 <= i < |files| && EntriesOf(dir, files)[i] == e;
      assert files[i] in files;
    }
    if f: LogFile :| f in files && e == Entry(dir, f.stem, f.content) {
      var i :| 0 <= i < |files| && files[i] == f;
      assert EntriesOf(dir, files)[i] == e;
    }
  }

  /** The rows a month is rebuilt to: those of its files, in listing order. */
  function MonthRows(entries: seq<Entry>, month: string): seq<Row> {
    if entries == [] then [] else
      var e := entries[|entries| - 1];
      MonthRows(entries[..|entries| - 1], month) + if MonthKey(e) == month then FileRows(e.dir, e.content) else []
  }

  predicate Wanted(months: Option<set<string>>, month: string) {
    months.None? || month in months.value
  }

  // Months of which at least one file was read.
  function Touched(entries: seq<Entry>, months: Option<set<string>>): set<string> {
    set e | e in entries && Wanted(months, MonthKey(e)) :: MonthKey(e)
  }

  ghost predicate MonthRebuilt(index: Index, counts: map<string, nat>, done: seq<Entry>, m: string)
    requires m in index && m in counts
  {
    index[m].messages == MonthRows(done, m) && index[m].InSync() && counts[m] == |index[m].messages|
  }

  /** The index and the counts after the entries in `done`: a touched month starts from nothing
      and holds the rows of its files; every other month is as it was. */
  ghost predicate RebuiltFrom(before: Index, index: Index, counts: map<string, nat>, done: seq<Entry>, months: Option<set<string>>) {
    && counts.Keys == Touched(done, months)
    && index.Keys == before.Keys + counts.Keys
    && (forall m :: m in counts ==> MonthRebuilt(index, counts, done, m))
    && (forall m :: m in before && m !in counts ==> index[m] == before[m])
  }

  lemma {:induction false} TouchedSnoc(done: seq<Entry>, e: Entry, months: Option<set<string>>)
    ensures Touched(done + [e], months) == Touched(done, months) + if Wanted(months, MonthKey(e)) then {MonthKey(e)} else {}
  {
    forall m | m in Touched(done, months) ensures m in Touched(done + [e], months) {
      var x :| x in done && Wanted(months, MonthKey(x)) && MonthKey(x) == m;
      assert x in done + [e];
    }
    assert e in done + [e];
  }

  lemma {:induction false} MonthRowsSnoc(done: seq<Entry>, e: Entry, m: string)
    ensures MonthRows(done + [e], m) == MonthRows(done, m) + if MonthKey(e) == m then FileRows(e.dir, e.content) else []
  {
    assert (done + [e])[..|done|] == done;
  }

  lemma {:induction false} UntouchedHasNoRows(done: seq<Entry>, months: Option<set<string>>, month: string)
    requires Wanted(months, month) && month !in Touched(done, months)
    ensures MonthRows(done, month) == []
  {
    if done != [] {
      var n := |done| - 1;
      assert done == done[..n] + [done[n]];
      TouchedSnoc(done[..n], done[n], months);
      MonthRowsSnoc(done[..n], done[n], month);
      UntouchedHasNoRows(done[..n], months, month);
    }
  }

  // Reading one more wanted file, into a fresh month or one already opened in this pass.
  lemma {:induction false} OneMoreFile(before: Index, index: Index, counts: map<string, nat>, done: seq<Entry>, months: Option<set<string>>,
                    e: Entry, m: string, rows: seq<Row>, db: MonthDb)
    requires RebuiltFrom(before, index, counts, done, months) && Wanted(months, m) && m == MonthKey(e)
    requires rows == FileRows(e.dir, e.content)
    requires db.messages == (if m in counts then index[m].messages else []) + rows && db.InSync()
    ensures RebuiltFrom(before, index[m := db], counts[m := (if m in counts then counts[m] else 0) + |rows|], done + [e], months)
  {
    hide FileRows, Touched, Prefix, MonthRows;
    var index', counts' := index[m := db], counts[m := (if m in counts then counts[m] else 0) + |rows|];
    TouchedSnoc(done, e, months);
    if m !in counts {
      UntouchedHasNoRows(done, months, m);
    }
    forall c | c in counts' ensures MonthRebuilt(index', counts', done + [e], c) {
      MonthRowsSnoc(done, e, c);
      assert c != m ==> c in counts && MonthRebuilt(index, counts, done, c);
    }
  }

  lemma {:induction false} SkippedFile(before: Index, index: Index, counts: map<string, nat>, done: seq<Entry>, months: Option<set<string>>, e: Entry)
    requires RebuiltFrom(before, index, counts, done, months) && !Wanted(months, MonthKey(e))
    ensures RebuiltFrom(before, index, counts, done + [e], months)
  {
    TouchedSnoc(done, e, months);
    forall c | c in counts ensures MonthRebuilt(index, counts, done + [e], c) {
      MonthRowsSnoc(done, e, c);
    }
  }

  lemma {:induction false} ListingSnoc(dataDir: seq<DeviceDir>, i: nat, j: nat)
    requires i < |dataDir| && j < |dataDir[i].files|
    ensures var d := dataDir[i];
            Listing(dataDir[..i]) + EntriesOf(d.name, d.files[..j + 1]) ==
            Listing(dataDir[..i]) + EntriesOf(d.name, d.files[..j]) + [Entry(d.name, d.files[j].stem, d.files[j].content)]
  {
    var d := dataDir[i];
    assert EntriesOf(d.name, d.files[..j + 1]) ==
           EntriesOf(d.name, d.files[..j]) + [Entry(d.name, d.files[j].stem, d.files[j].content)];
  }

  lemma {:induction false} NothingRead(before: Index, months: Option<set<string>>)
    ensures RebuiltFrom(before, before, map[], [], months)
  {
  }

  lemma {:induction false} OpenedInSync(before: Index, index: Index, counts: map<string, nat>, done: seq<Entry>, months: Option<set<string>>, m: string)
    requires RebuiltFrom(before, index, counts, done, months) && m in counts
    ensures m in index && index[m].InSync()
  {
    assert MonthRebuilt(index, counts, done, m);
  }

  // A month was asked for, or all were, and has a log file.
  ghost predicate Asked(dataDir: seq<DeviceDir>, months: Option<set<string>>, month: string) {
    && (months.Some? ==> month in months.value)
    && exists d, f :: d in dataDir && f in d.files && Prefix(f.stem, 7) == month
  }

  lemma {:induction false} TouchedAreAsked(dataDir: seq<DeviceDir>, months: Option<set<string>>, month: string)
    ensures month in Touched(Listing(dataDir), months) <==> Asked(dataDir, months, month)
  {
    if month in Touched(Listing(dataDir), months) {
      var e :| e in Listing(dataDir) && Wanted(months, MonthKey(e)) && MonthKey(e) == month;
      ListingParts(dataDir, [], e);
    }
    if Asked(dataDir, months, month) {
      var d, f :| d in dataDir && f in d.files && Prefix(f.stem, 7) == month;
      var e := Entry(d.name, f.stem, f.content);
      ListingParts(dataDir, [], e);
    }
  }

  /** What the tool leaves, in terms of what it was asked: exactly the months that were asked for and
      have a log file are made anew, from their own files alone, and counted. All others are as before. */
  ghost predicate AsAsked(dataDir: seq<DeviceDir>, months: Option<set<string>>, before: Index, index: Index, counts: map<string, nat>) {
    forall m: string ::
      if Asked(dataDir, months, m) then
        m in counts && m in index && index[m].messages == MonthRows(Listing(dataDir), m) && index[m].InSync() && counts[m] == |index[m].messages|
      else
        m !in counts && (m in index <==> m in before) && (m in before ==> index[m] == before[m])
  }

  lemma {:induction false} RebuiltAsAsked(dataDir: seq<DeviceDir>, months: Option<set<string>>, before: Index, index: Index, counts: map<string, nat>)
    requires RebuiltFrom(before, index, counts, Listing(dataDir), months)
    ensures AsAsked(dataDir, months, before, index, counts)
  {
    hide Asked, Touched, MonthRows, Listing;
    forall m: string
      ensures if Asked(dataDir, months, m) then
                m in counts && m in index && index[m].messages == MonthRows(Listing(dataDir), m) && index[m].InSync() && counts[m] == |index[m].messages|
              else
                m !in counts && (m in index <==> m in before) && (m in before ==> index[m] == before[m])
    {
      TouchedAreAsked(dataDir, months, m);
      assert m in counts <==> m in counts.Keys;
      if m in counts {
        assert MonthRebuilt(index, counts, Listing(dataDir), m);
      }
      assert m in index <==> m in index.Keys;
    }
  }

  method RebuildIndexer(dataDir: seq<DeviceDir>, before: Index, months: Option<set<string>>)
      returns (index: Index, counts: map<string, nat>)
    ensures RebuiltFrom(before, index, counts, Listing(dataDir), months)
    ensures AsAsked(dataDir, months, before, index, counts)
  {
    hide FileRows, MonthRebuilt, MonthRows, Touched, RebuiltFrom, AsAsked;
    index, counts := before, map[];
    var connections: set<string> := {};        // months opened in this pass; their old file is gone
    ghost var done: seq<Entry> := [];
    NothingRead(before, months);
    for i := 0 to |dataDir|
      invariant done == Listing(dataDir[..i])
      invariant connections == counts.Keys
      invariant RebuiltFrom(before, index, counts, done, months)
    {
      var deviceDir := dataDir[i];
      assert dataDir[..i + 1][..i] == dataDir[..i];
      for j := 0 to |deviceDir.files|
        invariant done == Listing(dataDir[..i]) + EntriesOf(deviceDir.name, deviceDir.files[..j])
        invariant connections == counts.Keys
        invariant RebuiltFrom(before, index, counts, done, months)
      {
        var logFile := deviceDir.files[j];
        var monthKey := Prefix(logFile.stem, 7);
        ghost var entry := Entry(deviceDir.name, logFile.stem, logFile.content);
        ListingSnoc(dataDir, i, j);
        if months.Some? && monthKey !in months.value {
          SkippedFile(before, index, counts, done, months, entry);
        } else {
          var db := EMPTY_MONTH;
          if monthKey in connections {
            OpenedInSync(before, index, counts, done, months, monthKey);
            db := index[monthKey];
          }
          connections := connections + {monthKey};
          var inserted;
          db, inserted := RebuildFile(db, logFile.content, deviceDir.name);
          OneMoreFile(before, index, counts, done, months, entry, monthKey, FileRows(deviceDir.name, logFile.content), db);
          index := index[monthKey := db];
          counts := counts[monthKey := (if monthKey in counts then counts[monthKey] else 0) + inserted];
        }
        done := done + [entry];
      }
      assert deviceDir.files[..|deviceDir.files|] == deviceDir.files;
    }
    assert dataDir[..|dataDir|] == dataDir;
    RebuiltAsAsked(dataDir, months, before, index, counts);
  }
}
