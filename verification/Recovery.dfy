/** The central promise: rebuilding from the text files gives the index that live ingest built. */
module Recovery {
  import opened Wrappers
  import opened Seqs
  import opened Envelope
  import opened Pipeline
  import opened Rebuild
  import opened ReadBack
  import Lex
  import opened Fidelity
  import Matchers
  import Parser
  import TimeUtil
  import Utf8
  import TextLog
  import Stages
  import IndexerCore
  import DeviceWriters
  import Servers

  /** `_sanitize_device_key`: the directory of a source address. */
  function Sanitize(device: string): (dir: string)
    ensures |dir| == |device|
    ensures ':' !in dir
    ensures dir == device <==> ':' !in device
  {
    seq(|device|, i requires 0 <= i < |device| => if device[i] == ':' then '_' else device[i])
  }

  ghost predicate Wrote(p: Server, d: string) {
    d in p.writers && p.writers[d].saved != []
  }

  // No two writers that wrote anything share a directory.
  ghost predicate OwnDirectories(p: Server) {
    forall d1, d2 | Wrote(p, d1) && Wrote(p, d2) && Sanitize(d1) == Sanitize(d2) :: d1 == d2
  }

  // The file of a device and day, in the data directory the writers leave behind.
  ghost predicate IsFileOf(p: Server, e: Entry, d: string) {
    && d in p.writers && e.dir == Sanitize(d)
    && InFile(p, d, e.stem) != [] && e.content == FileText(InFile(p, d, e.stem))
  }

  // A file of one of the given writers.
  ghost predicate IsFile(p: Server, ds: set<string>, e: Entry) {
    exists d :: d in ds && IsFileOf(p, e, d)
  }

  /** The files found in the data directory, in any order. */
  ghost predicate IsListing(p: Server, entries: seq<Entry>) {
    && (forall i, j :: 0 <= i < j < |entries| ==> (entries[i].dir, entries[i].stem) != (entries[j].dir, entries[j].stem))
    && (forall i :: 0 <= i < |entries| ==> IsFile(p, p.writers.Keys, entries[i]))
    && (forall d, y :: d in p.writers && InFile(p, d, y) != [] ==>
          exists i :: 0 <= i < |entries| && entries[i].dir == Sanitize(d) && entries[i].stem == y)
  }

  /** Only an address with a '_' can end up in the directory of another. */
  lemma {:induction false} PlainAddressesDoNotCollide(p: Server)
    requires forall d :: d in p.writers ==> '_' !in d
    ensures OwnDirectories(p)
  {
    forall d1, d2 | Wrote(p, d1) && Wrote(p, d2) && Sanitize(d1) == Sanitize(d2) ensures d1 == d2 {
      forall i | 0 <= i < |d1| ensures d1[i] == d2[i] {
        assert Sanitize(d1)[i] == Sanitize(d2)[i];
        assert d1[i] in d1 && d2[i] in d2;
      }
    }
  }

  // A listing of the files of some of the writers.
  ghost predicate ListsWriters(p: Server, ds: set<string>, entries: seq<Entry>) {
    && (forall i, j :: 0 <= i < j < |entries| ==> (entries[i].dir, entries[i].stem) != (entries[j].dir, entries[j].stem))
    && (forall i :: 0 <= i < |entries| ==> IsFile(p, ds, entries[i]))
    && (forall d, y :: d in ds && d in p.writers && InFile(p, d, y) != [] ==>
          exists i :: 0 <= i < |entries| && entries[i].dir == Sanitize(d) && entries[i].stem == y)
  }

  // The files of one writer: one for each day of which it saved a message.
  function FilesOf(p: Server, d: string): (es: seq<Entry>)
    requires d in p.writers
    ensures var days := FirstKeys(p.writers[d].saved, DayOf);
            |es| == |days| && forall i :: 0 <= i < |days| ==> es[i] == Entry(Sanitize(d), days[i], FileText(InFile(p, d, days[i])))
  {
    var days := FirstKeys(p.writers[d].saved, DayOf);
    seq(|days|, i requires 0 <= i < |days| => Entry(Sanitize(d), days[i], FileText(InFile(p, d, days[i]))))
  }

  lemma {:induction false} FilesOfListed(p: Server, d: string)
    requires d in p.writers
    ensures ListsWriters(p, {d}, FilesOf(p, d))
  {
    hide DayOf, FileText, FirstKeys, Select, Sanitize;
    var saved, days, es := p.writers[d].saved, FirstKeys(p.writers[d].saved, DayOf), FilesOf(p, d);
    forall i | 0 <= i < |es| ensures IsFileOf(p, es[i], d) {
      SelectIn(saved, DayOf, days[i]);
      assert days[i] in days;
    }
    forall y | InFile(p, d, y) != [] ensures exists i :: 0 <= i < |es| && es[i].dir == Sanitize(d) && es[i].stem == y {
      SelectIn(saved, DayOf, y);
      assert InFile(p, d, y)[0] in InFile(p, d, y);
      var i :| 0 <= i < |days| && days[i] == y;
      assert es[i].stem == y;
    }
  }

  // The three parts of putting two listings together.
  lemma {:induction false} ListMoreDistinct(p: Server, ds: set<string>, a: seq<Entry>, d: string, b: seq<Entry>)
    requires OwnDirectories(p) && d !in ds && ListsWriters(p, ds, a) && ListsWriters(p, {d}, b)
    ensures forall i, j :: 0 <= i < |a| && 0 <= j < |b| ==> a[i].dir != b[j].dir
  {
    hide IsFileOf, OwnDirectories, Sanitize, InFile;
    forall i, j | 0 <= i < |a| && 0 <= j < |b| ensures a[i].dir != b[j].dir {
      var c :| c in ds && IsFileOf(p, a[i], c);
      assert IsFileOf(p, b[j], d);
      OtherDirectory(p, a[i], c, b[j], d);
    }
  }

  lemma {:induction false} OtherDirectory(p: Server, a: Entry, c: string, b: Entry, d: string)
    requires OwnDirectories(p) && c != d && IsFileOf(p, a, c) && IsFileOf(p, b, d)
    ensures a.dir != b.dir
  {
    hide FileText, Sanitize, InFile;
    InFileWrote(p, c, a.stem);
    InFileWrote(p, d, b.stem);
  }

  lemma {:induction false} ListMoreAreFiles(p: Server, ds: set<string>, a: seq<Entry>, d: string, b: seq<Entry>, i: nat)
    requires ListsWriters(p, ds, a) && ListsWriters(p, {d}, b) && i < |a + b|
    ensures IsFile(p, ds + {d}, (a + b)[i])
  {
    hide IsFileOf;
    if i < |a| {
      assert (a + b)[i] == a[i];
      var c :| c in ds && IsFileOf(p, a[i], c);
      assert c in ds + {d};
    } else {
      assert IsFileOf(p, b[i - |a|], d) && d in ds + {d};
    }
  }

  lemma {:induction false} ListMoreIsComplete(p: Server, ds: set<string>, a: seq<Entry>, d: string, b: seq<Entry>, c: string, y: string)
    requires ListsWriters(p, ds, a) && ListsWriters(p, {d}, b)
    requires c in ds + {d} && c in p.writers && InFile(p, c, y) != []
    ensures exists i :: 0 <= i < |a + b| && (a + b)[i].dir == Sanitize(c) && (a + b)[i].stem == y
  {
    hide IsFileOf, Sanitize, InFile;
    if c in ds {
      var i :| 0 <= i < |a| && a[i].dir == Sanitize(c) && a[i].stem == y;
      assert (a + b)[i] == a[i];
    } else {
      var i :| 0 <= i < |b| && b[i].dir == Sanitize(c) && b[i].stem == y;
      assert (a + b)[|a| + i] == b[i];
    }
  }

  lemma {:induction false} ListMore(p: Server, ds: set<string>, a: seq<Entry>, d: string, b: seq<Entry>)
    requires OwnDirectories(p) && d !in ds && ListsWriters(p, ds, a) && ListsWriters(p, {d}, b)
    ensures ListsWriters(p, ds + {d}, a + b)
  {
    hide IsFileOf, Sanitize, InFile, OwnDirectories;
    ListMoreDistinct(p, ds, a, d, b);
    forall i | 0 <= i < |a + b| ensures IsFile(p, ds + {d}, (a + b)[i]) {
      ListMoreAreFiles(p, ds, a, d, b, i);
    }
    forall c, y | c in ds + {d} && c in p.writers && InFile(p, c, y) != []
      ensures exists i :: 0 <= i < |a + b| && (a + b)[i].dir == Sanitize(c) && (a + b)[i].stem == y
    {
      ListMoreIsComplete(p, ds, a, d, b, c, y);
    }
  }

  lemma {:induction false} InFileWrote(p: Server, d: string, y: string)
    requires InFile(p, d, y) != []
    ensures Wrote(p, d)
  {
  }

  lemma {:induction false} WritersListed(p: Server, ds: set<string>) returns (entries: seq<Entry>)
    requires OwnDirectories(p) && ds <= p.writers.Keys
    ensures ListsWriters(p, ds, entries)
  {
    hide ListsWriters, OwnDirectories;
    if ds == {} {
      entries := [];
      NothingListed(p);
    } else {
      var d :| d in ds;
      var rest := WritersListed(p, ds - {d});
      FilesOfListed(p, d);
      ListMore(p, ds - {d}, rest, d, FilesOf(p, d));
      entries := rest + FilesOf(p, d);
      assert ds - {d} + {d} == ds;
    }
  }

  lemma {:induction false} NothingListed(p: Server)
    ensures ListsWriters(p, {}, [])
  {
  }

  /** Then there are such files: one a device and day, with the lines of what was written. */
  lemma {:induction false} ListingExists(p: Server) returns (entries: seq<Entry>)
    requires OwnDirectories(p)
    ensures IsListing(p, entries)
  {
    hide ListsWriters, OwnDirectories, IsListing;
    entries := WritersListed(p, p.writers.Keys);
    AllWritersListed(p, entries);
  }

  lemma {:induction false} AllWritersListed(p: Server, entries: seq<Entry>)
    requires ListsWriters(p, p.writers.Keys, entries)
    ensures IsListing(p, entries)
  {
    hide DayOf, InFile, FileText, Sanitize;
    forall d, y | d in p.writers && InFile(p, d, y) != []
      ensures exists i :: 0 <= i < |entries| && entries[i].dir == Sanitize(d) && entries[i].stem == y
    {
      assert d in p.writers.Keys;
    }
  }

  /** The rows live ingest put into a month. */
  function LiveRows(p: Server, month: string): seq<Row> {
    Map(RowOf, Select(p.indexer.saved, MonthOf, month))
  }

  /** The month files of an indexer that started on an empty directory are these rows ... */
  lemma {:induction false} LiveIndexFiles(ix: IndexerCore.Indexer, p: Server, month: string)
    requires ix.Valid() && ix.before == map[] && ix.State() == p.indexer
    ensures LiveRows(p, month) == if month in ix.index then ix.index[month].messages else []
  {
    hide RowOf, MonthOf, Stages.Inv;
    assert IndexerCore.MonthHolds(ix.before, ix.index, ix.saved, month);
    assert IndexerCore.RowsBefore(ix.before, month) == [];
  }

  /** ... and a writer that started on an empty directory has a file for each day of which it
      wrote a message, with the lines of those messages. */
  lemma {:induction false} LiveDayFiles(w: DeviceWriters.DeviceWriter, p: Server, d: string, day: string)
    requires w.Valid() && w.before == map[] && d in p.writers && p.writers[d] == w.State()
    ensures InFile(p, d, day) != [] ==> day in w.files
    ensures day in w.files ==> w.files[day] == FileText(InFile(p, d, day))
    ensures w.failed == multiset{} && day in w.files ==> InFile(p, d, day) != []
  {
    hide DayOf, FileText, Stages.Inv;
    assert DeviceWriters.DayHolds(w.before, w.files, w.sanitizedPaths, w.saved, w.failed == multiset{}, day);
    assert TextLog.CleanTail(DeviceWriters.FileOf(w.before, day)) == [];
    NoText();
  }

  lemma {:induction false} NoText()
    ensures FileText([]) == []
  {
  }

  // Device and day of a row, as far as the row itself tells.
  function RowPlace(r: Row): (string, string) {
    (r.sourceIp, Lex.Prefix(r.receiptTime, 10))
  }

  lemma {:induction false} RowIsPlaced(m: MessageEnvelope)
    ensures RowPlace(RowOf(m)) == PlaceOf(m)
    ensures forall dir :: RowPlace(RebuiltRow(dir, m)) == (dir, DayOf(m))
    ensures MonthOf(m) == Lex.Prefix(DayOf(m), 7)
  {
    TimeUtil.RenderedPrefixes(m.receiptTime);
  }

  // ----- the live side -----

  lemma {:induction false} LiveAtPlace(p: Server, month: string, d: string, y: string)
    ensures Select(LiveRows(p, month), RowPlace, (d, y)) ==
            if Lex.Prefix(y, 7) == month then Map(RowOf, Select(p.indexer.saved, PlaceOf, (d, y))) else []
  {
    hide RowPlace, RowOf, DayOf, MonthOf, Lex.Prefix;
    var saved, place := Select(p.indexer.saved, MonthOf, month), (d, y);
    forall x ensures RowPlace(RowOf(x)) == PlaceOf(x) {
      RowIsPlaced(x);
    }
    SelectMap(RowOf, saved, PlaceOf, RowPlace, place);
    forall x | PlaceOf(x) == place ensures MonthOf(x) == Lex.Prefix(y, 7) {
      RowIsPlaced(x);
    }
    if Lex.Prefix(y, 7) == month {
      SelectRefine(p.indexer.saved, MonthOf, month, PlaceOf, place);
    } else {
      SelectIn(p.indexer.saved, MonthOf, month);
      SelectNone(saved, PlaceOf, place);
    }
  }

  // ----- the rebuilt side -----

  lemma {:induction false} FileRowsPlaced(p: Server, e: Entry, d: string)
    requires IsFileOf(p, e, d)
    ensures FileRows(e.dir, e.content) == RebuiltRows(e.dir, InFile(p, d, e.stem))
    ensures forall r :: r in FileRows(e.dir, e.content) ==> RowPlace(r) == (e.dir, e.stem)
  {
    hide FileRows, FileText, RebuiltRow, DayOf, RowPlace;
    var ms := InFile(p, d, e.stem);
    FileReadBack(e.dir, ms);
    SelectIn(p.writers[d].saved, DayOf, e.stem);
    forall i | 0 <= i < |ms| ensures RowPlace(RebuiltRow(e.dir, ms[i])) == (e.dir, e.stem) {
      assert ms[i] in ms;
      RowIsPlaced(ms[i]);
    }
  }

  // In a listing without repeats, the rows at a place are those of its one file.
  lemma {:induction false} RebuiltElsewhere(entries: seq<Entry>, month: string, place: (string, string))
    requires forall i :: 0 <= i < |entries| ==> (entries[i].dir, entries[i].stem) != place
    requires forall i, r :: 0 <= i < |entries| && r in FileRows(entries[i].dir, entries[i].content) ==>
               RowPlace(r) == (entries[i].dir, entries[i].stem)
    ensures Select(MonthRows(entries, month), RowPlace, place) == []
  {
    hide FileRows, RowPlace, MonthKey;
    if entries != [] {
      var n := |entries| - 1;
      var e := entries[n];
      RebuiltElsewhere(entries[..n], month, place);
      SelectConcat(MonthRows(entries[..n], month), FileRows(e.dir, e.content), RowPlace, place);
      SelectNone(FileRows(e.dir, e.content), RowPlace, place);
      assert MonthRows(entries[..n], month) + [] == MonthRows(entries[..n], month);
    }
  }

  lemma {:induction false} RebuiltAtEntry(entries: seq<Entry>, month: string, k: nat)
    requires k < |entries| && MonthKey(entries[k]) == month
    requires forall i, j :: 0 <= i < j < |entries| ==> (entries[i].dir, entries[i].stem) != (entries[j].dir, entries[j].stem)
    requires forall i, r :: 0 <= i < |entries| && r in FileRows(entries[i].dir, entries[i].content) ==>
               RowPlace(r) == (entries[i].dir, entries[i].stem)
    ensures Select(MonthRows(entries, month), RowPlace, (entries[k].dir, entries[k].stem)) ==
            FileRows(entries[k].dir, entries[k].content)
  {
    hide FileRows, RowPlace, MonthKey;
    var n := |entries| - 1;
    var e, place := entries[n], (entries[k].dir, entries[k].stem);
    SelectConcat(MonthRows(entries[..n], month), FileRows(e.dir, e.content), RowPlace, place);
    if k == n {
      RebuiltElsewhere(entries[..n], month, place);
      SelectAll(FileRows(e.dir, e.content), RowPlace, place);
    } else {
      RebuiltAtEntry(entries[..n], month, k);
      assert (entries[k].dir, entries[k].stem) != (entries[n].dir, entries[n].stem);
      SelectNone(FileRows(e.dir, e.content), RowPlace, place);
      assert MonthRows(entries[..n], month) + [] == MonthRows(entries[..n], month);
    }
  }

  lemma {:induction false} ListingPlaced(p: Server, entries: seq<Entry>)
    requires IsListing(p, entries)
    ensures forall i, r :: 0 <= i < |entries| && r in FileRows(entries[i].dir, entries[i].content) ==>
              RowPlace(r) == (entries[i].dir, entries[i].stem)
  {
    hide FileRows, RowPlace;
    forall i, r | 0 <= i < |entries| && r in FileRows(entries[i].dir, entries[i].content)
      ensures RowPlace(r) == (entries[i].dir, entries[i].stem)
    {
      var d :| d in p.writers.Keys && IsFileOf(p, entries[i], d);
      FileRowsPlaced(p, entries[i], d);
    }
  }

  lemma {:induction false} OneDirectoryOneWriter(p: Server, entries: seq<Entry>, i: nat, d: string)
    requires IsListing(p, entries) && OwnDirectories(p) && Wrote(p, d)
    requires i < |entries| && entries[i].dir == Sanitize(d)
    ensures IsFileOf(p, entries[i], d)
  {
    hide DayOf, FileText, Sanitize;
    var c :| c in p.writers.Keys && IsFileOf(p, entries[i], c);
    InFileWrote(p, c, entries[i].stem);
  }

  /** A device and day are rebuilt to exactly the rows of their messages, in order. */
  lemma {:induction false} RebuiltAtPlace(p: Server, entries: seq<Entry>, month: string, d: string, y: string)
    requires IsListing(p, entries) && OwnDirectories(p) && Lex.Prefix(y, 7) == month
    requires Wrote(p, d)
    ensures Select(MonthRows(entries, month), RowPlace, (Sanitize(d), y)) == RebuiltRows(Sanitize(d), InFile(p, d, y))
  {
    hide FileRows, RowPlace, MonthRows, FileText, Lex.Prefix, Sanitize, RebuiltRows;
    ListingPlaced(p, entries);
    if InFile(p, d, y) == [] {
      forall i | 0 <= i < |entries| ensures (entries[i].dir, entries[i].stem) != (Sanitize(d), y) {
        if entries[i].dir == Sanitize(d) {
          OneDirectoryOneWriter(p, entries, i, d);
        }
      }
      RebuiltElsewhere(entries, month, (Sanitize(d), y));
    } else {
      var k :| 0 <= k < |entries| && entries[k].dir == Sanitize(d) && entries[k].stem == y;
      OneDirectoryOneWriter(p, entries, k, d);
      FileRowsPlaced(p, entries[k], d);
      RebuiltAtEntry(entries, month, k);
    }
  }

  // No file, no rows.
  lemma {:induction false} RebuiltNowhere(p: Server, entries: seq<Entry>, month: string, dir: string, y: string)
    requires IsListing(p, entries)
    requires Lex.Prefix(y, 7) != month || forall d :: d in p.writers ==> Sanitize(d) != dir
    ensures Select(MonthRows(entries, month), RowPlace, (dir, y)) == []
  {
    hide FileRows, RowPlace, FileText, Lex.Prefix, MonthRows;
    ListingPlaced(p, entries);
    OutsideMonth(entries, month, (dir, y));
  }

  lemma {:induction false} OutsideMonth(entries: seq<Entry>, month: string, place: (string, string))
    requires forall i, r :: 0 <= i < |entries| && r in FileRows(entries[i].dir, entries[i].content) ==>
               RowPlace(r) == (entries[i].dir, entries[i].stem)
    requires forall i :: 0 <= i < |entries| ==> Lex.Prefix(place.1, 7) != month || entries[i].dir != place.0
    ensures Select(MonthRows(entries, month), RowPlace, place) == []
  {
    hide FileRows, RowPlace;
    if entries != [] {
      var n := |entries| - 1;
      var e := entries[n];
      OutsideMonth(entries[..n], month, place);
      SelectConcat(MonthRows(entries[..n], month), FileRows(e.dir, e.content), RowPlace, place);
      if MonthKey(e) == month {
        assert (e.dir, e.stem) != place;
        SelectNone(FileRows(e.dir, e.content), RowPlace, place);
      } else {
        assert MonthRows(entries, month) == MonthRows(entries[..n], month) + [] == MonthRows(entries[..n], month);
      }
    }
  }

  // ----- both sides -----

  /** The row that rebuild makes of the message is the row that live ingest made. */
  ghost predicate Faithful(m: MessageEnvelope) {
    RebuiltRow(Sanitize(m.sourceIp), m) == RowOf(m)
  }

  // What can be checked of a message on arrival: its address and its payload.
  predicate Keeps(sourceIp: string, raw: Utf8.bytes) {
    ':' !in sourceIp && KeepsItsFields(raw)
  }

  /** ... which is so exactly when the address has no ':', the message is a single line, and an
      RFC 3164 tag does not outgrow its limit when ill-formed bytes are replaced. */
  lemma {:induction false} FaithfulExactly(m: RawMessage)
    ensures Faithful(FromRaw(m)) <==> Keeps(m.sourceIp, m.raw)
  {
    hide Parser.ParseSyslog, Normalize, TimeUtil.FormatReceiptTime, KeepsItsFields;
    ParsesTheSameExactly(m.raw);
  }

  // Live and rebuilt agree at every device and day of every month.
  ghost predicate SameEverywhere(p: Server, entries: seq<Entry>) {
    forall month, d, y :: Select(LiveRows(p, month), RowPlace, (d, y)) == Select(MonthRows(entries, month), RowPlace, (d, y))
  }

  lemma {:induction false} FaithfulRows(dir: string, ms: seq<MessageEnvelope>)
    requires forall x :: x in ms ==> RebuiltRow(dir, x) == RowOf(x)
    ensures RebuiltRows(dir, ms) == Map(RowOf, ms)
  {
    hide RebuiltRow, RowOf;
    assert forall i :: 0 <= i < |ms| ==> ms[i] in ms;
  }

  lemma {:induction false} InFileWasReceived(p: Server, d: string, y: string)
    requires ServerInv(p) && Stopped(p) && NoFileFailures(p)
    ensures forall x :: x in InFile(p, d, y) ==> x in ReceivedBy(p, d) && DeviceOf(x) == d
  {
    hide DayOf;
    if d in p.writers {
      StopLosesNothing(p);
      assert InFile(p, d, y) == Select(Stages.Received(p.writers[d]), DayOf, y);
      SelectIn(Stages.Received(p.writers[d]), DayOf, y);
      assert WriterInv(p.writers[d], d);
    }
  }

  ghost predicate AllFaithful(p: Server) {
    forall d, x :: x in ReceivedBy(p, d) ==> Faithful(x)
  }

  // The rebuilt rows at a place, when every message is faithful.
  lemma {:induction false} RebuiltFaithfully(p: Server, entries: seq<Entry>, month: string, d: string, y: string)
    requires ServerInv(p) && Stopped(p) && NoFileFailures(p) && IsListing(p, entries) && OwnDirectories(p) && AllFaithful(p)
    ensures Select(MonthRows(entries, month), RowPlace, (d, y)) ==
            if Lex.Prefix(y, 7) == month then Map(RowOf, InFile(p, d, y)) else []
  {
    hide FileRows, RowPlace, MonthRows, FileText, Lex.Prefix, RebuiltRow, RowOf, DayOf, DeviceOf, ServerInv, IsListing, Stopped, NoFileFailures;
    InFileWasReceived(p, d, y);
    var ms := InFile(p, d, y);
    if Lex.Prefix(y, 7) != month {
      RebuiltNowhere(p, entries, month, d, y);
    } else if ms != [] {
      assert ms[0] in ms && Faithful(ms[0]);
      FaithfulAddress(ms[0]);
      DeviceIsSource(ms[0]);
      forall x | x in ms ensures RebuiltRow(d, x) == RowOf(x) {
        DeviceIsSource(x);
        assert Faithful(x);
      }
      RebuiltAtPlace(p, entries, month, d, y);
      FaithfulRows(d, ms);
    } else {
      NoFileAt(p, entries, month, d, y);
    }
  }

  lemma {:induction false} DeviceIsSource(m: MessageEnvelope)
    ensures DeviceOf(m) == m.sourceIp
  {
  }

  lemma {:induction false} FaithfulAddress(m: MessageEnvelope)
    requires Faithful(m)
    ensures Sanitize(m.sourceIp) == m.sourceIp
  {
    hide Parser.ParseSyslog, Normalize, TimeUtil.FormatReceiptTime;
  }

  // A device with faithful messages in a file has a directory of its own name.
  lemma {:induction false} FaithfulDirectory(p: Server, d: string, y: string)
    requires ServerInv(p) && Stopped(p) && NoFileFailures(p) && AllFaithful(p) && InFile(p, d, y) != []
    ensures Sanitize(d) == d
  {
    hide RebuiltRow, RowOf, DayOf, DeviceOf, Sanitize, InFile, ReceivedBy, Faithful, ServerInv, Stopped, NoFileFailures;
    var x := InFile(p, d, y)[0];
    InFileWasReceived(p, d, y);
    assert x in InFile(p, d, y);
    DeviceIsSource(x);
    FaithfulAddress(x);
  }

  lemma {:induction false} NoFileAt(p: Server, entries: seq<Entry>, month: string, d: string, y: string)
    requires IsListing(p, entries) && InFile(p, d, y) == []
    requires AllFaithful(p) && ServerInv(p) && Stopped(p) && NoFileFailures(p)
    ensures Select(MonthRows(entries, month), RowPlace, (d, y)) == []
  {
    hide FileRows, RowPlace, MonthRows, FileText, Lex.Prefix, AllFaithful, ServerInv, Stopped, NoFileFailures, InFile, Sanitize;
    ListingPlaced(p, entries);
    forall i | 0 <= i < |entries| ensures (entries[i].dir, entries[i].stem) != (d, y) {
      assert IsFile(p, p.writers.Keys, entries[i]);
      var c :| c in p.writers.Keys && IsFileOf(p, entries[i], c);
      FaithfulDirectory(p, c, entries[i].stem);
    }
    RebuiltElsewhere(entries, month, (d, y));
  }

  /** The headline. After any run that ended in `SyslogServer.stop` without a failed file write,
      and with faithful messages: in every month, for every device and day, the live rows are an
      order-preserving selection of the rebuilt rows; and if the indexer dropped nothing they are
      the same rows in the same order, so that the month holds the same rows as often. */
  lemma {:induction false} RebuildEqualsLive(p: Server, entries: seq<Entry>, month: string)
    requires ServerInv(p) && Stopped(p) && NoFileFailures(p)
    requires IsListing(p, entries) && OwnDirectories(p) && AllFaithful(p)
    ensures forall d, y :: Subseq(Select(LiveRows(p, month), RowPlace, (d, y)), Select(MonthRows(entries, month), RowPlace, (d, y)))
    ensures NothingDropped(p.indexer) ==>
              && multiset(LiveRows(p, month)) == multiset(MonthRows(entries, month))
              && forall d, y :: Select(LiveRows(p, month), RowPlace, (d, y)) == Select(MonthRows(entries, month), RowPlace, (d, y))
  {
    hide RowPlace, MonthRows, RowOf, ServerInv, IsListing, Stopped, NoFileFailures, AllFaithful, OwnDirectories, NothingDropped, LiveRows, Lex.Prefix, InFile;
    var live, rebuilt := LiveRows(p, month), MonthRows(entries, month);
    forall d, y
      ensures Subseq(Select(live, RowPlace, (d, y)), Select(rebuilt, RowPlace, (d, y)))
      ensures NothingDropped(p.indexer) ==> Select(live, RowPlace, (d, y)) == Select(rebuilt, RowPlace, (d, y))
    {
      LiveAtPlace(p, month, d, y);
      RebuiltFaithfully(p, entries, month, d, y);
      IndexMatchesFiles(p, d, y);
      SubseqMap(RowOf, Select(p.indexer.saved, PlaceOf, (d, y)), InFile(p, d, y));
      SubseqRefl<Row>([]);
    }
    if NothingDropped(p.indexer) {
      forall place: (string, string) ensures Select(live, RowPlace, place) == Select(rebuilt, RowPlace, place) {
        assert place == (place.0, place.1);
      }
      SelectsDetermine(live, rebuilt, RowPlace);
    }
  }

  lemma {:induction false} SameMeansFaithful(p: Server, entries: seq<Entry>, d: string, x: MessageEnvelope)
    requires ServerInv(p) && Stopped(p) && NoFileFailures(p) && NothingDropped(p.indexer)
    requires IsListing(p, entries) && OwnDirectories(p) && SameEverywhere(p, entries)
    requires x in ReceivedBy(p, d)
    ensures Faithful(x)
  {
    hide RowPlace, MonthRows, RowOf, RebuiltRow, IsListing, OwnDirectories, LiveRows, Lex.Prefix, DayOf, MonthOf, PlaceOf, FileText, Stopped, NoFileFailures, NothingDropped;
    var y, month := DayOf(x), MonthOf(x);
    RowIsPlaced(x);
    StopLosesNothing(p);
    assert WriterInv(p.writers[d], d);
    DeviceIsSource(x);
    var ms := InFile(p, d, y);
    SelectIn(Stages.Received(p.writers[d]), DayOf, y);
    assert x in ms;
    IndexMatchesFiles(p, d, y);
    LiveAtPlace(p, month, d, y);
    assert Select(MonthRows(entries, month), RowPlace, (d, y)) == Map(RowOf, ms);
    if forall c :: c in p.writers ==> Sanitize(c) != d {
      RebuiltNowhere(p, entries, month, d, y);
      assert false;
    }
    assert Sanitize(d) == d;
    RebuiltAtPlace(p, entries, month, d, y);
    var i :| 0 <= i < |ms| && ms[i] == x;
    assert RebuiltRows(d, ms)[i] == Map(RowOf, ms)[i];
  }

  // Every message taken off a queue has an address and a payload that survive the text file.
  ghost predicate AllKept(p: Server) {
    forall d, x :: x in ReceivedBy(p, d) ==> Keeps(x.sourceIp, x.raw)
  }

  lemma {:induction false} KeptIsFaithful(p: Server)
    requires AllGenuine(p)
    ensures AllKept(p) <==> AllFaithful(p)
  {
    hide Faithful, Normalize, FromRaw, Keeps;
    forall d, x | x in ReceivedBy(p, d) ensures Faithful(x) <==> Keeps(x.sourceIp, x.raw) {
      assert Genuine(x);
      var m: RawMessage :| x == FromRaw(m);
      RawFields(m);
      FaithfulExactly(m);
    }
  }

  /** When nothing was dropped, live and rebuilt index agree everywhere exactly when every message
      is faithful: its address has no ':', its message is one line, and its tag fits. */
  lemma {:induction false} RebuildEqualsLiveExactly(p: Server, entries: seq<Entry>)
    requires ServerInv(p) && Stopped(p) && NoFileFailures(p) && NothingDropped(p.indexer)
    requires IsListing(p, entries) && OwnDirectories(p)
    ensures SameEverywhere(p, entries) <==> AllFaithful(p)
    ensures AllGenuine(p) ==> (SameEverywhere(p, entries) <==> AllKept(p))
  {
    hide ServerInv, Stopped, NoFileFailures, NothingDropped, IsListing, OwnDirectories, Faithful, LiveRows, MonthRows, RowPlace, AllGenuine, AllKept;
    if SameEverywhere(p, entries) {
      forall d, x | x in ReceivedBy(p, d) ensures Faithful(x) {
        SameMeansFaithful(p, entries, d, x);
      }
    }
    if AllFaithful(p) {
      forall month, d, y
        ensures Select(LiveRows(p, month), RowPlace, (d, y)) == Select(MonthRows(entries, month), RowPlace, (d, y))
      {
        RebuildEqualsLive(p, entries, month);
      }
    }
    if AllGenuine(p) {
      KeptIsFaithful(p);
    }
  }

  lemma {:induction false} SavedWasReceivedBy(p: Server, d: string, x: MessageEnvelope)
    requires ServerInv(p) && d in p.writers && x in p.writers[d].saved
    ensures x in ReceivedBy(p, d) && x.sourceIp == d
  {
    hide DayOf, MonthOf, Stages.InOrder, Stages.Counted, Stages.Shaped, Stages.Alive, Routed;
    var w := p.writers[d];
    assert WriterInv(w, d);
    Stages.SavedWasReceived(w, x);
    DeviceIsSource(x);
  }

  lemma {:induction false} KeptOwnDirectories(p: Server)
    requires AllKept(p) && ServerInv(p)
    ensures OwnDirectories(p)
  {
    hide DayOf, MonthOf, KeepsItsFields;
    forall d | Wrote(p, d) ensures Sanitize(d) == d {
      var x := p.writers[d].saved[0];
      SavedWasReceivedBy(p, d, x);
    }
  }

  lemma {:induction false} RawFields(m: RawMessage)
    ensures FromRaw(m).sourceIp == m.sourceIp && FromRaw(m).raw == m.raw
  {
  }

  /** The same for every run from empty directories, whatever the interleaving of arrivals,
      timeouts, flushes and the stop: kept messages that were not dropped are in the index exactly
      as a rebuild from the files left behind would put them there. */
  lemma {:induction false} EveryRunIsRebuildable(writerLimits: Stages.Limits, indexerLimits: Stages.Limits, states: seq<Server>,
                              entries: seq<Entry>, month: string)
    requires IsRun(writerLimits, indexerLimits, states)
    requires var p := states[|states| - 1];
             Stopped(p) && NoFileFailures(p) && AllKept(p) && IsListing(p, entries)
    ensures var p := states[|states| - 1];
            && (forall d, y :: Subseq(Select(LiveRows(p, month), RowPlace, (d, y)), Select(MonthRows(entries, month), RowPlace, (d, y))))
            && (NothingDropped(p.indexer) ==>
                  && multiset(LiveRows(p, month)) == multiset(MonthRows(entries, month))
                  && forall d, y :: Select(LiveRows(p, month), RowPlace, (d, y)) == Select(MonthRows(entries, month), RowPlace, (d, y)))
  {
    hide ServerInv, Stopped, NoFileFailures, NothingDropped, IsListing, AllFaithful, AllKept, AllGenuine, LiveRows, MonthRows, RowPlace, OwnDirectories;
    var p := states[|states| - 1];
    RunKeepsInv(writerLimits, indexerLimits, states);
    RunKeepsGenuine(writerLimits, indexerLimits, states);
    KeptIsFaithful(p);
    KeptOwnDirectories(p);
    RebuildEqualsLive(p, entries, month);
  }

  /** And no other messages are: after any run that dropped nothing, live and rebuilt index agree
      if and only if every message is kept. */
  lemma {:induction false} EveryRunExactly(writerLimits: Stages.Limits, indexerLimits: Stages.Limits, states: seq<Server>, entries: seq<Entry>)
    requires IsRun(writerLimits, indexerLimits, states)
    requires var p := states[|states| - 1];
             Stopped(p) && NoFileFailures(p) && NothingDropped(p.indexer) && IsListing(p, entries) && OwnDirectories(p)
    ensures var p := states[|states| - 1]; SameEverywhere(p, entries) <==> AllKept(p)
  {
    hide ServerInv, Stopped, NoFileFailures, NothingDropped, IsListing, AllFaithful, AllKept, AllGenuine, SameEverywhere, OwnDirectories;
    RunKeepsInv(writerLimits, indexerLimits, states);
    RunKeepsGenuine(writerLimits, indexerLimits, states);
    RebuildEqualsLiveExactly(states[|states| - 1], entries);
  }

  /** What `RebuildIndexer` leaves, file by file, when it is run over everything the receiver left
      behind: the months it touched hold the live rows, and the others had none. */
  lemma {:induction false} RebuiltIndexIsLive(p: Server, entries: seq<Entry>, before: Index, index: Index, counts: map<string, nat>)
    requires ServerInv(p) && Stopped(p) && NoFileFailures(p) && NothingDropped(p.indexer)
    requires IsListing(p, entries) && OwnDirectories(p) && AllFaithful(p)
    requires RebuiltFrom(before, index, counts, entries, None)
    ensures forall m :: m in counts ==> m in index && multiset(index[m].messages) == multiset(LiveRows(p, m)) && counts[m] == |LiveRows(p, m)|
    ensures forall m :: m !in counts ==> LiveRows(p, m) == []
  {
    hide ServerInv, Stopped, NoFileFailures, NothingDropped, IsListing, OwnDirectories, AllFaithful, LiveRows, MonthRows, RowPlace, Touched;
    forall m | m in counts
      ensures m in index && multiset(index[m].messages) == multiset(LiveRows(p, m)) && counts[m] == |LiveRows(p, m)|
    {
      RebuildEqualsLive(p, entries, m);
      assert MonthRebuilt(index, counts, entries, m);
      assert |multiset(index[m].messages)| == |multiset(LiveRows(p, m))|;
    }
    forall m | m !in counts ensures LiveRows(p, m) == [] {
      RebuildEqualsLive(p, entries, m);
      UntouchedHasNoRows(entries, None, m);
      assert |multiset(LiveRows(p, m))| == 0;
    }
  }

  // ----- the same of the objects -----

  // The files that the server's writers left behind, in any order.
  ghost predicate ListsFiles(s: Servers.SyslogServer, entries: seq<Entry>)
    reads s, s.indexer, s.writers.Values
  {
    && (forall i, j :: 0 <= i < j < |entries| ==> (entries[i].dir, entries[i].stem) != (entries[j].dir, entries[j].stem))
    && (forall i :: 0 <= i < |entries| ==> LeftBehind(s, entries[i]))
    && (forall d, y :: d in s.writers && y in s.writers[d].files ==>
          exists i :: 0 <= i < |entries| && entries[i].dir == Sanitize(d) && entries[i].stem == y)
  }

  ghost predicate LeftBehind(s: Servers.SyslogServer, e: Entry)
    reads s, s.writers.Values
  {
    exists d :: d in s.writers && e.dir == Sanitize(d) && e.stem in s.writers[d].files && e.content == s.writers[d].files[e.stem]
  }

  lemma {:induction false} LeftBehindIsFile(s: Servers.SyslogServer, e: Entry)
    requires s.Wired() && NoFileFailures(s.Model()) && LeftBehind(s, e)
    ensures IsFile(s.Model(), s.Model().writers.Keys, e)
  {
    hide InFile, FileText, Sanitize, DeviceWriters.DeviceWriter.Valid, IndexerCore.Indexer.Valid;
    var d :| d in s.writers && e.dir == Sanitize(d) && e.stem in s.writers[d].files && e.content == s.writers[d].files[e.stem];
    assert s.Registered(d, s.writers[d]);
    assert s.Model().writers[d].failed == multiset{};
    LiveDayFiles(s.writers[d], s.Model(), d, e.stem);
    assert IsFileOf(s.Model(), e, d);
  }

  lemma {:induction false} FilesAreListed(s: Servers.SyslogServer, entries: seq<Entry>)
    requires s.Wired() && NoFileFailures(s.Model()) && ListsFiles(s, entries)
    ensures IsListing(s.Model(), entries)
  {
    hide InFile, FileText, Sanitize, DeviceWriters.DeviceWriter.Valid, IndexerCore.Indexer.Valid, LeftBehind, IsFile, NoFileFailures;
    var p := s.Model();
    forall i | 0 <= i < |entries| ensures IsFile(p, p.writers.Keys, entries[i]) {
      LeftBehindIsFile(s, entries[i]);
    }
    forall d, y | d in p.writers && InFile(p, d, y) != []
      ensures exists i :: 0 <= i < |entries| && entries[i].dir == Sanitize(d) && entries[i].stem == y
    {
      assert s.Registered(d, s.writers[d]);
      LiveDayFiles(s.writers[d], p, d, y);
    }
  }

  /** Whatever schedule the server object was driven through, once it is stopped without failed
      writes: the rows in its month files are those that a rebuild from its own text files gives,
      if its indexer dropped nothing and every message is kept. */
  lemma {:induction false} ServerIsRebuildable(s: Servers.SyslogServer, entries: seq<Entry>, month: string)
    requires s.Valid() && Stopped(s.Model()) && NoFileFailures(s.Model()) && AllKept(s.Model()) && NothingDropped(s.Model().indexer)
    requires ListsFiles(s, entries)
    ensures multiset(if month in s.indexer.index then s.indexer.index[month].messages else []) == multiset(MonthRows(entries, month))
  {
    hide IsListing, ListsFiles, Stopped, NoFileFailures, AllKept, NothingDropped, MonthRows, LiveRows, RowPlace, IsRun,
         DeviceWriters.DeviceWriter.Valid, IndexerCore.Indexer.Valid;
    FilesAreListed(s, entries);
    EveryRunIsRebuildable(s.limits, s.indexer.limits, s.trace, entries, month);
    LiveIndexFiles(s.indexer, s.Model(), month);
  }

  // Eleven ill-formed bytes, which become thirty-three.
  function LongTag(): (t: Utf8.bytes)
    ensures |t| == 11 && forall i :: 0 <= i < 11 ==> t[i] == 255
  {
    seq(11, i => 255)
  }

  function LongTagMessage(): Parser.Message3164 {
    Parser.Message3164(13, [74, 97, 110], [32], [49], [48, 48, 58, 48, 48, 58, 48, 48], [104], LongTag(), None, [])
  }

  lemma {:induction false} LongTagIsLong(t: Utf8.bytes)
    requires forall i :: 0 <= i < |t| ==> t[i] == 255
    ensures |Utf8.Encode(Utf8.Decode(t))| == 3 * |t|
  {
    if t != [] {
      LongTagIsLong(t[1..]);
      assert Utf8.DecodeStep(t) == Utf8.Step(Utf8.REPLACEMENT, 1);
      assert |Utf8.EncodeChar(Utf8.REPLACEMENT)| == 3;
      assert Utf8.Decode(t)[1..] == Utf8.Decode(t[1..]);
    }
  }

  lemma {:induction false} LongTagDoesNotFit()
    ensures LongTagMessage().Valid() && !TagFits(LongTagMessage().Text())
  {
    hide Matchers.SplitPri, Matchers.Match3164, Matchers.MatchTag;
    var m := LongTagMessage();
    Parser.PrintedPri(m.pri, m.Header().Text());
    Parser.Header3164Found(m);
    LongTagIsLong(LongTag());
  }

  /** Three messages for which rebuilding gives another row: a line break in the payload becomes a
      space in the file, the directory of an IPv6 address has another name, and a tag of eleven
      ill-formed bytes is too long for one when they are replaced. */
  lemma {:induction false} UnfaithfulMessages(t: TimeUtil.Timestamp)
    ensures !Faithful(FromRaw(RawMessage([10], t, "10.0.0.1", 514, "udp")))
    ensures !Faithful(FromRaw(RawMessage([65], t, "fe80::1", 514, "udp")))
    ensures !Faithful(FromRaw(RawMessage(LongTagMessage().Text(), t, "10.0.0.1", 514, "udp")))
  {
    hide Parser.ParseSyslog, Normalize, Faithful, FromRaw, TagFits, LongTagMessage;
    OneByteMessage(10);
    assert Utf8.Decode([10]) == "\n";
    FaithfulExactly(RawMessage([10], t, "10.0.0.1", 514, "udp"));
    assert "fe80::1"[4] == ':';
    FaithfulExactly(RawMessage([65], t, "fe80::1", 514, "udp"));
    LongTagDoesNotFit();
    FaithfulExactly(RawMessage(LongTagMessage().Text(), t, "10.0.0.1", 514, "udp"));
  }

  /** A payload that is no UTF-8 may still be kept: only its text is ever stored. */
  lemma {:induction false} IllFormedIsFaithful(t: TimeUtil.Timestamp)
    ensures Normalize([255]) != [255] && Faithful(FromRaw(RawMessage([255], t, "10.0.0.1", 514, "udp")))
  {
    hide Parser.ParseSyslog, Faithful, FromRaw, Normalize, TagFits;
    OneByteMessage(255);
    ReplacedByte();
    FaithfulExactly(RawMessage([255], t, "10.0.0.1", 514, "udp"));
  }

  lemma {:induction false} ReplacedByte()
    ensures Utf8.Decode([255]) == [Utf8.REPLACEMENT] && |Normalize([255])| == 3
  {
    assert Utf8.DecodeStep([255]) == Utf8.Step(Utf8.REPLACEMENT, 1);
    assert OneLine([Utf8.REPLACEMENT]) == [Utf8.REPLACEMENT];
    assert Utf8.Encode([Utf8.REPLACEMENT][1..]) == [];
  }

  // A single byte that does not begin a PRI is its own message, without a tag.
  lemma {:induction false} OneByteMessage(b: Utf8.byte)
    requires b != Matchers.LT
    ensures Parser.ParseSyslog([b]).message == Utf8.Decode([b]) && TagFits([b])
  {
    hide Utf8.Decode, Utf8.DecodeStep;
    assert Matchers.MatchPri([b]) == None;
    assert Matchers.Match5424([b]) == None;
    assert Matchers.CutDate([b]) == None;
  }
}
