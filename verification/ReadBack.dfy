/** Reading a day file back: what rebuild sees of the lines that were written. */
module ReadBack {
  import opened Utf8
  import opened Envelope
  import opened TextLog
  import opened Rebuild
  import Lines
  import Parser
  import TimeUtil

  function DecodeAll(lines: seq<bytes>): (s: seq<string>)
    ensures |s| == |lines|
    ensures forall i :: 0 <= i < |lines| ==> s[i] == Decode(lines[i])
  {
    seq(|lines|, i requires 0 <= i < |lines| => Decode(lines[i]))
  }

  /** Decoding and splitting commute: a line cut off in the middle of a character, or one that
      never was UTF-8, cannot disturb its neighbours. */
  lemma {:induction false} DecodedLines(content: bytes)
    ensures Lines.Split(Decode(content), '\n') == DecodeAll(FileLines(content))
    decreases |content|
  {
    hide DecodeStep;
    if NL !in content {
      NewlineFree(content);
    } else {
      var line, rest := Lines.FirstLine(content, NL);
      DecodeSplitsAtAscii(line, NL, rest);
      DecodedLines(rest);
      if '\n' in Decode(line) {
        DecodedAscii(line, NL);
      }
      Lines.SplitHead(Decode(line), '\n', Decode(rest));
    }
  }

  lemma {:induction false} NewlineFree(content: bytes)
    requires NL !in content
    ensures Lines.Split(Decode(content), '\n') == DecodeAll(FileLines(content))
  {
    if content != [] {
      if '\n' in Decode(content) {
        DecodedAscii(content, NL);
      }
      Lines.OnlyLine(content, NL);
      Lines.OnlyLine(Decode(content), '\n');
    }
  }

  lemma {:induction false} NoCarriageReturn(text: string)
    requires '\r' !in text
    ensures UniversalNewlines(text) == text
  {
    if text != [] {
      NoCarriageReturn(text[1..]);
    }
  }

  lemma {:induction false} ReadLines(content: bytes)
    requires 13 !in content
    ensures TextLines(content) == DecodeAll(FileLines(content))
  {
    if '\r' in Decode(content) {
      DecodedAscii(content, 13);
    }
    NoCarriageReturn(Decode(content));
    DecodedLines(content);
  }

  // ----- one message -----

  /** The row rebuild makes of a message's line found under the directory `dir`. */
  function RebuiltRow(dir: string, m: MessageEnvelope): Row {
    Row(TimeUtil.FormatReceiptTime(m.receiptTime), dir, Parser.ParseSyslog(Normalize(m.raw)))
  }

  lemma {:induction false} LineRow(dir: string, m: MessageEnvelope)
    ensures RowOfLine(dir, ToLine(m)) == [RebuiltRow(dir, m)]
  {
    hide Parser.ParseSyslog, TimeUtil.FormatReceiptTime;
    TimeUtil.RenderedPrefixes(m.receiptTime);
    var time, text := TimeUtil.FormatReceiptTime(m.receiptTime), OneLine(Decode(m.raw));
    assert ToLine(m) == time + [' '] + text;
    Lines.IndexOfUnique(time, ' ', text);
    assert ToLine(m)[..|time|] == time && ToLine(m)[|time| + 1..] == text;
  }

  // ----- the file of a list of messages -----

  function LinesOf(ms: seq<MessageEnvelope>): (lines: seq<bytes>)
    ensures |lines| == |ms|
    ensures forall i :: 0 <= i < |ms| ==> lines[i] == Encode(ToLine(ms[i]))
  {
    seq(|ms|, i requires 0 <= i < |ms| => Encode(ToLine(ms[i])))
  }

  function FileText(ms: seq<MessageEnvelope>): bytes {
    Lines.Text(LinesOf(ms), NL)
  }

  function RebuiltRows(dir: string, ms: seq<MessageEnvelope>): (rows: seq<Row>)
    ensures |rows| == |ms|
    ensures forall i :: 0 <= i < |ms| ==> rows[i] == RebuiltRow(dir, ms[i])
  {
    seq(|ms|, i requires 0 <= i < |ms| => RebuiltRow(dir, ms[i]))
  }

  lemma {:induction false} LinesHaveNoBreaks(ms: seq<MessageEnvelope>)
    ensures Lines.NoneIn(LinesOf(ms), NL) && Lines.NoneIn(LinesOf(ms), 13)
  {
    forall i | 0 <= i < |ms| ensures NL !in LinesOf(ms)[i] && 13 !in LinesOf(ms)[i] {
      LineHasNoBreaks(ms[i]);
    }
  }

  // A byte that is neither in a line nor the newline is not in the file.
  lemma {:induction false} TextIsLines(lines: seq<bytes>, x: byte)
    requires Lines.NoneIn(lines, x) && x != NL
    ensures x !in Lines.Text(lines, NL)
  {
    if lines != [] {
      assert lines[0] in lines && forall l :: l in lines[1..] ==> l in lines;
      TextIsLines(lines[1..], x);
    }
  }

  lemma {:induction false} FileTextLines(ms: seq<MessageEnvelope>)
    ensures FileLines(FileText(ms)) == LinesOf(ms)
    ensures |TextLines(FileText(ms))| == |ms|
    ensures forall i :: 0 <= i < |ms| ==> TextLines(FileText(ms))[i] == ToLine(ms[i])
  {
    hide TextLines, ToLine;
    LinesHaveNoBreaks(ms);
    Lines.SplitText(LinesOf(ms), NL);
    TextIsLines(LinesOf(ms), 13);
    ReadLines(FileText(ms));
    forall i | 0 <= i < |ms| ensures TextLines(FileText(ms))[i] == ToLine(ms[i]) {
      DecodeEncode(ToLine(ms[i]));
    }
  }

  lemma {:induction false} RowsOfMessages(dir: string, lines: seq<string>, ms: seq<MessageEnvelope>)
    requires |lines| == |ms| && forall i :: 0 <= i < |ms| ==> lines[i] == ToLine(ms[i])
    ensures RowsOfLines(dir, lines) == RebuiltRows(dir, ms)
  {
    hide RowOfLine, RebuiltRow, ToLine;
    if ms != [] {
      var n := |ms| - 1;
      RowsOfMessages(dir, lines[..n], ms[..n]);
      LineRow(dir, ms[n]);
      assert RebuiltRows(dir, ms) == RebuiltRows(dir, ms[..n]) + [RebuiltRow(dir, ms[n])];
    }
  }

  /** Every message in a file is rebuilt to exactly one row, in order. */
  lemma {:induction false} FileReadBack(dir: string, ms: seq<MessageEnvelope>)
    ensures FileRows(dir, FileText(ms)) == RebuiltRows(dir, ms)
  {
    hide RowsOfLines, TextLines, ToLine, FileText, RebuiltRows;
    FileTextLines(ms);
    RowsOfMessages(dir, TextLines(FileText(ms)), ms);
  }

  // ----- after crashes -----

  lemma {:induction false} ContentIsLines(content: bytes, x: byte)
    requires x in content && x != NL
    ensures exists l :: l in FileLines(content) && x in l
    decreases |content|
  {
    if NL !in content {
      Lines.OnlyLine(content, NL);
      assert content in FileLines(content);
    } else {
      var line, rest := Lines.FirstLine(content, NL);
      if x in line {
        assert line in FileLines(content);
      } else {
        ContentIsLines(rest, x);
        var l :| l in FileLines(rest) && x in l;
        assert l in FileLines(content);
      }
    }
  }

  lemma {:induction false} ExplainedHasNo(lines: seq<bytes>, history: seq<bytes>, origin: seq<nat>, torn: set<nat>, x: byte)
    requires Explained(lines, history, origin, torn) && Lines.NoneIn(history, x)
    ensures forall l :: l in lines ==> x !in l
  {
    forall i | 0 <= i < |lines| ensures x !in lines[i] {
      assert history[origin[i]] in history && lines[i] <= history[origin[i]];
    }
  }

  /** Rebuilding after any run of crashes and restarts: but for at most one torn line a crash,
      each line of the file gives exactly the row of the message it was written for, in the
      order of writing, even when a neighbouring line was cut inside a character. */
  lemma {:induction false} RebuildAfterCrashes(dir: string, events: seq<TextLog.Event>, ms: seq<MessageEnvelope>)
      returns (origin: seq<nat>, torn: set<nat>)
    requires Possible(NEW_LOG, events) && History(events) == LinesOf(ms)
    ensures var lines := TextLines(Run(NEW_LOG, events).content);
            && |origin| == |lines| && |torn| <= Crashes(events)
            && (forall i, j :: 0 <= i < j < |origin| ==> origin[i] < origin[j])
            && (forall i :: 0 <= i < |origin| ==> origin[i] < |ms|)
            && (forall i :: 0 <= i < |origin| && origin[i] !in torn ==>
                  RowOfLine(dir, lines[i]) == [RebuiltRow(dir, ms[origin[i]])])
  {
    hide RowOfLine, RebuiltRow, ToLine, TextLines, FileLines, Possible, Run;
    var content := Run(NEW_LOG, events).content;
    origin, torn := EveryLineExplained(events);
    LinesHaveNoBreaks(ms);
    ExplainedHasNo(FileLines(content), LinesOf(ms), origin, torn, 13);
    if 13 in content {
      ContentIsLines(content, 13);
    }
    ReadLines(content);
    forall i | 0 <= i < |origin| && origin[i] !in torn
      ensures RowOfLine(dir, TextLines(content)[i]) == [RebuiltRow(dir, ms[origin[i]])]
    {
      DecodeEncode(ToLine(ms[origin[i]]));
      LineRow(dir, ms[origin[i]]);
    }
  }
}
