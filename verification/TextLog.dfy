/** One append-only day file of sylo/receiver/device_writer.py, through appends, crashes and
    restarts. The file is the bytes that would be on disk after a full write-back; a crash
    may lose any of them that were not fsynced. */
module TextLog {
  import opened Utf8
  import Lines

  const NL: byte := 10

  function FileLines(content: bytes): seq<bytes> { Lines.Split(content, NL) }

  /** `_ensure_clean_tail`: an unterminated last line gets its newline. */
  function CleanTail(content: bytes): bytes {
    if Lines.Clean(content, NL) then content else content + [NL]
  }

  /** `_write_sync`: repair the tail if asked, then append the lines. */
  function WriteSync(content: bytes, lines: seq<bytes>, sanitizeTail: bool): bytes {
    (if sanitizeTail then CleanTail(content) else content) + Lines.Text(lines, NL)
  }

  // The source joins the lines with newlines and adds a last one.
  function Join(lines: seq<string>): string
    requires lines != []
  {
    if |lines| == 1 then lines[0] else lines[0] + "\n" + Join(lines[1..])
  }

  function EncodeAll(lines: seq<string>): (b: seq<bytes>)
    ensures |b| == |lines|
    ensures forall i :: 0 <= i < |lines| ==> b[i] == Encode(lines[i])
  {
    seq(|lines|, i requires 0 <= i < |lines| => Encode(lines[i]))
  }

  /** What the joined text is on disk: each line encoded and terminated. */
  lemma {:induction false} JoinedText(lines: seq<string>)
    requires lines != []
    ensures Encode(Join(lines) + "\n") == Lines.Text(EncodeAll(lines), NL)
  {
    assert Encode("\n") == [NL] by { assert Encode("\n"[1..]) == []; }
    if |lines| == 1 {
      EncodeConcat(lines[0], "\n");
      assert Lines.Text(EncodeAll(lines)[1..], NL) == [];
    } else {
      var rest := Join(lines[1..]) + "\n";
      JoinedText(lines[1..]);
      assert Join(lines) + "\n" == lines[0] + ("\n" + rest);
      EncodeConcat(lines[0], "\n" + rest);
      EncodeConcat("\n", rest);
      assert EncodeAll(lines)[1..] == EncodeAll(lines[1..]);
    }
  }

  /** Repairing the tail keeps every line, so a batch never runs into an old fragment. */
  lemma {:induction false} WriteSyncLines(content: bytes, lines: seq<bytes>, sanitizeTail: bool)
    requires Lines.NoneIn(lines, NL)
    requires sanitizeTail || Lines.Clean(content, NL)
    ensures FileLines(WriteSync(content, lines, sanitizeTail)) == FileLines(content) + lines
    ensures Lines.Clean(WriteSync(content, lines, sanitizeTail), NL)
    ensures content <= WriteSync(content, lines, sanitizeTail)
  {
    var base := CleanTail(content);
    if !Lines.Clean(content, NL) {
      Lines.SplitTerminated(content, NL);
    }
    Lines.SplitConcat(base, Lines.Text(lines, NL), NL);
    Lines.SplitText(lines, NL);
    Lines.TextClean(lines, NL);
    if lines == [] {
      assert base + Lines.Text(lines, NL) == base;
    } else {
      var text := Lines.Text(lines, NL);
      assert (base + text)[|base| + |text| - 1] == text[|text| - 1];
    }
  }

  // ----- runs -----

  datatype Event =
    | Append(lines: seq<bytes>, fsync: bool)
    | Crash(keep: nat)                       // the process dies, the file keeps this many bytes, and a new process starts

  datatype Log = Log(content: bytes, synced: nat, sanitized: bool)

  const NEW_LOG := Log([], 0, false)

  predicate Enabled(log: Log, e: Event) {
    match e
    case Append(lines, _) => lines != [] && Lines.NoneIn(lines, NL)
    case Crash(keep) => log.synced <= keep <= |log.content|
  }

  function Step(log: Log, e: Event): Log {
    match e
    case Append(lines, fsync) =>
      var content := WriteSync(log.content, lines, !log.sanitized);
      Log(content, if fsync then |content| else log.synced, true)
    case Crash(keep) => Log(if keep <= |log.content| then log.content[..keep] else log.content, log.synced, false)
  }

  function Run(log: Log, events: seq<Event>): Log {
    if events == [] then log else Step(Run(log, events[..|events| - 1]), events[|events| - 1])
  }

  predicate Possible(log: Log, events: seq<Event>) {
    events == [] || (Possible(log, events[..|events| - 1]) && Enabled(Run(log, events[..|events| - 1]), events[|events| - 1]))
  }

  /** A crash may come at any time, and cut the file anywhere down to what was synced; and so may any
      append of lines without newlines. */
  lemma {:induction false} AnythingMayHappen(events: seq<Event>, keep: nat, lines: seq<bytes>, fsync: bool)
    requires Possible(NEW_LOG, events)
    ensures var log := Run(NEW_LOG, events);
            && (Possible(NEW_LOG, events + [Crash(keep)]) <==> log.synced <= keep <= |log.content|)
            && (Possible(NEW_LOG, events + [Append(lines, fsync)]) <==> lines != [] && forall l :: l in lines ==> NL !in l)
  {
    hide Run;
    assert (events + [Crash(keep)])[..|events|] == events && (events + [Append(lines, fsync)])[..|events|] == events;
  }

  // Every line ever appended, in order; how many crashes; how many lines since the last one.
  function History(events: seq<Event>): seq<bytes> {
    if events == [] then [] else
      History(events[..|events| - 1]) + match events[|events| - 1] case Append(lines, _) => lines case Crash(_) => []
  }

  function Crashes(events: seq<Event>): nat {
    if events == [] then 0 else
      Crashes(events[..|events| - 1]) + if events[|events| - 1].Crash? then 1 else 0
  }

  function SinceCrash(events: seq<Event>): nat {
    if events == [] || events[|events| - 1].Crash? then 0
    else SinceCrash(events[..|events| - 1]) + |events[|events| - 1].lines|
  }

  // Each line of the file comes from the history entry at its origin, in increasing order:
  // in full, unless that entry was torn, and then a prefix of it.
  ghost predicate Explained(lines: seq<bytes>, history: seq<bytes>, origin: seq<nat>, torn: set<nat>) {
    && |origin| == |lines|
    && (forall i :: 0 <= i < |origin| ==> origin[i] < |history|)
    && (forall i, j :: 0 <= i < j < |origin| ==> origin[i] < origin[j])
    && (forall i :: 0 <= i < |lines| ==> lines[i] <= history[origin[i]])
    && (forall i :: 0 <= i < |lines| ==> origin[i] in torn || lines[i] == history[origin[i]])
  }

  ghost predicate Consistent(log: Log) {
    log.synced <= |log.content| && (log.sanitized ==> Lines.Clean(log.content, NL))
  }

  lemma {:induction false} StaysConsistent(events: seq<Event>)
    requires Possible(NEW_LOG, events)
    ensures Consistent(Run(NEW_LOG, events))
  {
    if events != [] {
      var before, e := events[..|events| - 1], events[|events| - 1];
      StaysConsistent(before);
      if e.Append? {
        var log := Run(NEW_LOG, before);
        WriteSyncLines(log.content, e.lines, !log.sanitized);
      }
    }
  }

  lemma {:induction false} ExplainAppend(lines: seq<bytes>, history: seq<bytes>, origin: seq<nat>, torn: set<nat>, more: seq<bytes>)
      returns (origin': seq<nat>)
    requires Explained(lines, history, origin, torn)
    ensures Explained(lines + more, history + more, origin', torn)
  {
    origin' := origin + seq(|more|, i => |history| + i);
  }

  lemma {:induction false} ExplainCut(lines: seq<bytes>, history: seq<bytes>, origin: seq<nat>, torn: set<nat>, cut: seq<bytes>)
      returns (origin': seq<nat>, torn': set<nat>)
    requires Explained(lines, history, origin, torn) && Lines.CutShort(cut, lines)
    ensures Explained(cut, history, origin', torn')
    ensures |torn'| <= |torn| + 1
  {
    var n := |cut|;
    origin', torn' := origin[..n], torn;
    if n > 0 {
      torn' := torn + {origin[n - 1]};
      forall i | 0 <= i < n
        ensures cut[i] <= history[origin'[i]] && (origin'[i] in torn' || cut[i] == history[origin'[i]])
      {
        if i < n - 1 {
          assert cut[i] == cut[..n - 1][i] == lines[..n - 1][i];
        }
      }
    }
  }

  /** After any run: no line mixes two messages, every line is a written line or a prefix of
      one, the lines are in the order they were written, and there is at most one torn line
      for each crash. */
  lemma {:induction false} EveryLineExplained(events: seq<Event>) returns (origin: seq<nat>, torn: set<nat>)
    requires Possible(NEW_LOG, events)
    ensures Explained(FileLines(Run(NEW_LOG, events).content), History(events), origin, torn)
    ensures |torn| <= Crashes(events)
  {
    origin, torn := [], {};
    if events != [] {
      var before, e := events[..|events| - 1], events[|events| - 1];
      var log := Run(NEW_LOG, before);
      origin, torn := EveryLineExplained(before);
      StaysConsistent(before);
      match e
      case Append(lines, _) =>
        WriteSyncLines(log.content, lines, !log.sanitized);
        origin := ExplainAppend(FileLines(log.content), History(before), origin, torn, lines);
      case Crash(keep) =>
        Lines.SplitTruncated(log.content, keep, NL);
        assert History(events) == History(before);
        origin, torn := ExplainCut(FileLines(log.content), History(before), origin, torn, FileLines(log.content[..keep]));
    }
  }

  ghost predicate SameTail<T>(a: seq<T>, b: seq<T>, n: nat) {
    n <= |a| && n <= |b| && a[|a| - n..] == b[|b| - n..]
  }

  lemma {:induction false} SameTailAppend<T>(a: seq<T>, b: seq<T>, n: nat, x: seq<T>)
    requires SameTail(a, b, n)
    ensures SameTail(a + x, b + x, n + |x|)
  {
    assert (a + x)[|a| - n..] == a[|a| - n..] + x;
    assert (b + x)[|b| - n..] == b[|b| - n..] + x;
  }

  lemma {:induction false} NoTail<T>(a: seq<T>, b: seq<T>)
    ensures SameTail(a, b, 0)
  {
  }

  lemma {:induction false} NothingWritten()
    ensures SameTail(FileLines(NEW_LOG.content), [], 0)
  {
  }

  /** The lines appended since the last crash are all there, in full, in order, at the end. */
  lemma {:induction false} RecentLinesIntact(events: seq<Event>)
    requires Possible(NEW_LOG, events)
    ensures SameTail(FileLines(Run(NEW_LOG, events).content), History(events), SinceCrash(events))
  {
    hide WriteSync, FileLines, Consistent, SameTail;
    if events == [] {
      NothingWritten();
    } else if events[|events| - 1].Crash? {
      NoTail(FileLines(Run(NEW_LOG, events).content), History(events));
    } else {
      var before, e := events[..|events| - 1], events[|events| - 1];
      var log := Run(NEW_LOG, before);
      RecentLinesIntact(before);
      StaysConsistent(before);
      WriteSyncLines(log.content, e.lines, !log.sanitized);
      SameTailAppend(FileLines(log.content), History(before), SinceCrash(before), e.lines);
    }
  }

  lemma {:induction false} SyncedPrefixKept(start: seq<Event>, more: seq<Event>)
    requires start != [] && start[|start| - 1].Append? && start[|start| - 1].fsync
    requires Possible(NEW_LOG, start + more)
    ensures Possible(NEW_LOG, start)
    ensures var earlier, later := Run(NEW_LOG, start), Run(NEW_LOG, start + more);
            earlier.content <= later.content && |earlier.content| <= later.synced <= |later.content|
    decreases |more|
  {
    var events := start + more;
    if more == [] {
      assert events == start;
      StaysConsistent(start);
    } else {
      var before := more[..|more| - 1];
      assert events[..|events| - 1] == start + before && events[|events| - 1] == more[|more| - 1];
      SyncedPrefixKept(start, before);
      StaysConsistent(start + before);
      StaysConsistent(events);
      var log := Run(NEW_LOG, start + before);
      match more[|more| - 1]
      case Append(lines, _) => WriteSyncLines(log.content, lines, !log.sanitized);
      case Crash(keep) =>
    }
  }

  /** Nothing an fsync covered is ever lost or altered: the lines of the file at that moment
      are the first lines of the file ever after. */
  lemma {:induction false} FsyncedLinesSurvive(start: seq<Event>, more: seq<Event>)
    requires start != [] && start[|start| - 1].Append? && start[|start| - 1].fsync
    requires Possible(NEW_LOG, start + more)
    ensures FileLines(Run(NEW_LOG, start).content) <= FileLines(Run(NEW_LOG, start + more).content)
  {
    SyncedPrefixKept(start, more);
    CleanAfterAppend(start);
    PrefixLines(Run(NEW_LOG, start).content, Run(NEW_LOG, start + more).content);
  }

  lemma {:induction false} CleanAfterAppend(events: seq<Event>)
    requires Possible(NEW_LOG, events) && events != [] && events[|events| - 1].Append?
    ensures Lines.Clean(Run(NEW_LOG, events).content, NL)
  {
    StaysConsistent(events);
  }

  lemma {:induction false} PrefixLines(a: bytes, b: bytes)
    requires Lines.Clean(a, NL) && a <= b
    ensures FileLines(a) <= FileLines(b)
  {
    Lines.SplitConcat(a, b[|a|..], NL);
    assert b == a + b[|a|..];
  }
}
