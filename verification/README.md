# Verification of sylo

sylo is a small log store. A receiver takes syslog messages over UDP and TCP, and one writer per
source address appends them to daily text files. The text files are the source of truth. Each
writer also forwards the parsed messages to one indexer, which inserts them into monthly SQLite
files. A web application searches, browses and tails those files, a retention pass drops aged
months, and a rebuild tool makes the index again from the text.

This project models that logic in Dafny and proves what the parts promise each other. Files are
sequences of bytes, index files are sequences of rows, and the stretches of code between two
`await`s are the atomic steps of a state machine.

    dafny verify dfyconfig.toml

## How it is built

- `Recovery` has the central theorem: from empty directories, whatever the interleaving of
  arrivals, timeouts, flushes, batch writes and the stop, a rebuild from the text files gives
  exactly the index that live ingest built, if and only if every message has an address and a payload
  that survive the text file. It rests on `Pipeline` (all writers and the indexer together),
  `Rebuild` (the tool), `ReadBack` (a written file read as text again, line by line), and `TextForm`
  and `Fidelity` (what the trip through the file does to a payload, and which payloads parse the same
  afterwards).
- `Stages` is the bounded queue with a batching consumer that writers and indexer share, as a
  transition system with its invariant. `DeviceWriters.DeviceWriter` and `IndexerCore.Indexer` are
  classes with the source's fields. Each of their methods is one stretch between awaits, and its
  postcondition equates the new state with the transition of `Stages`, so everything proved of the
  transition system holds of the classes. `Servers.SyslogServer` is the registry and the server over
  those objects: any schedule drives them through a run of `Pipeline`.
- `TextLog` and `Lines` are the day file under appends, crashes and restarts.
- `Matchers`, `StructuredData` and `Parser` are the parser. Each regular expression is a matcher
  proved to accept exactly the strings of its pattern, and the printers of RFC 5424 and RFC 3164
  are the other halves of the round trips. `Utf8` is encoding, and decoding with replacement.
- `Queries`, `Sorting` and `Devices` are the read path, `LiveTail` the live view, `Retention` the
  retention pass, `RateLimiter` the login limiter.
- `TimeUtil`, `Calendar` and `Lex` are the rendering of times, the Gregorian calendar, and string
  order. `Seqs` and `Wrappers` are vocabulary.

Automatic induction is switched off on every lemma: each induction is written out.

## Where the code and its documentation differ

- `sylo/indexer/rebuild.py:5-7` and `sylo/receiver/envelope.py:73-80` promise an equivalent rebuilt
  index. It is one exactly for messages whose address has no `:`, whose parsed message has no line
  break, and whose RFC 3164 tag, if any, is at most 32 bytes long as text
  (`Recovery.EveryRunExactly`, `Recovery.FaithfulExactly`, `Fidelity.ParsesTheSameExactly`). A UDP
  datagram whose message ends in a newline is rebuilt to another row, and so are an IPv6 source and a
  tag of eleven ill-formed bytes (`Recovery.UnfaithfulMessages`). Ill-formed UTF-8 elsewhere does no
  harm, since only the decoded text is ever stored (`Recovery.IllFormedIsFaithful`).
- `sylo/receiver/device_writer.py:159` takes for granted that there are no more producers when the
  queue is drained. Nothing in the code sees to that: a TCP connection may outlive the listening
  socket. The model lets messages arrive at any time. All accepted messages are saved if and only if
  at no point of the run one was accepted after the drain, be it during the last flush or later
  (`Stages.DoneSavesAcceptedExactly`, `Stages.NoLateArrivals`, and for the whole receiver
  `Pipeline.StopSavesAcceptedExactly`). One that was is lost without being counted
  (`Stages.LateArrivalIsLost`, `Stages.OneIsLost`). The rebuild theorem does not need the assumption.
- An `OSError` on a day's batch is counted neither as written nor as dropped
  (`sylo/receiver/device_writer.py:130-132`). The ghost field `failed` carries such messages, and
  `Stages.RunInv` shows that the counters add up only with it.
- `sylo/timeutil.py:7` promises a fixed width. `%Y` is not padded by glibc, so the rendering has its
  width exactly from the year 1000 on (`TimeUtil.FixedWidthExactly`), and the order of strings breaks
  below (`TimeUtil.ShortYearsBreakTheOrder`). Times from the clock are all later.
- The rebuild tool leaves a month file alone that has no text files any more
  (`Rebuild.RebuildIndexer`), although such a file is stale.
- The limit on failed logins per window holds only when a lockout lasts at least a window, as it does
  with the defaults, and only for requests made one after the other. The route checks and records in
  two steps, so with k requests under way at once the exact bound is the maximum plus k - 1
  (`RateLimiter.ThrottlesExactly`, `RateLimiter.BoundIsReached`).
- `sylo/retention/core.py:27-31` reads month `00` as the end of the year before instead of refusing it,
  and the model does as the code.

## Model

| member | source | states |
|---|---|---|
| Recovery.EveryRunIsRebuildable | sylo/indexer/rebuild.py:1-8 | for every run from empty directories that ended in a stop without failed file writes, and messages that survive the text file: at every device and day the live rows of every month are an order-preserving selection of the rebuilt rows, and if the indexer dropped nothing the month has the same rows equally often, and the same sequence at every device and day |
| Recovery.EveryRunExactly | sylo/indexer/rebuild.py:5-7 | for every such run that dropped nothing, live and rebuilt index agree everywhere if and only if every message has an address without `:`, a parsed message without line breaks, and an RFC 3164 tag, if any, of at most 32 bytes as text |
| Recovery.ServerIsRebuildable | sylo/receiver/server.py:83-130 | whatever schedule the server object was driven through, once stopped without failures or drops its month files hold, as multisets, the rows that a rebuild from its own text files gives |
| Recovery.RebuildEqualsLive | sylo/indexer/rebuild.py:22-84 | the same of any state with the invariant, for any messages whose rebuilt row is their live row and any files order |
| Recovery.RebuildEqualsLiveExactly | sylo/indexer/rebuild.py:5-7 | when nothing was dropped, live and rebuilt index agree everywhere if and only if every message taken off a queue keeps its row, which is so if and only if its address and payload survive the text file |
| Recovery.FaithfulExactly | sylo/receiver/envelope.py:73-82 | a message keeps its row if and only if its address has no `:`, its parsed message no line break, and its RFC 3164 tag, if any, at most 32 bytes as text |
| Recovery.UnfaithfulMessages | sylo/receiver/device_writer.py:19-21 | a payload that is a line break, an IPv6 source, and a tag of eleven ill-formed bytes are each rebuilt to a different row |
| Recovery.IllFormedIsFaithful | sylo/receiver/envelope.py:81 | a payload that is no UTF-8 may change in the file and still keep its row |
| Fidelity.ParsesTheSameExactly | sylo/parser.py:108-176 | for every payload: parsing it after decoding with replacement, replacing line breaks and encoding again gives the same fields if and only if its message has no line break and its RFC 3164 tag, if any, is at most 32 bytes as text |
| Fidelity.NormMatch5424 | sylo/parser.py:17-19 | an RFC 5424 header is found again in the same places; without line breaks none turns up that was not there |
| Fidelity.NormMatch3164 | sylo/parser.py:21-23 | an RFC 3164 header is found after the trip exactly if it was before, in the same places |
| Fidelity.NormMatchTag | sylo/parser.py:24 | a tag is found after the trip exactly if it was before and is at most 32 bytes as text |
| Fidelity.NormAfterElement | sylo/parser.py:68-89 | SD-ELEMENTs end in the same places, whatever bytes were replaced inside them, escaped ones included |
| Fidelity.NormMessage | sylo/parser.py:41-94 | a message without line breaks is found behind the structured data again |
| TextForm.LooseRun | sylo/receiver/envelope.py:81 | a run of bytes of a class that includes all beyond ASCII ends at the same place after the trip |
| TextForm.NormGrows | sylo/receiver/envelope.py:81 | the text of a payload is never shorter than the payload |
| Recovery.RebuiltIndexIsLive | sylo/indexer/rebuild.py:22-54 | the month files and counts that the rebuild tool returns are those of the live index; a month it does not touch has no live rows |
| Recovery.RebuiltAtPlace | sylo/indexer/rebuild.py:32-50 | in any listing of the files left behind, the rows rebuilt for a device and day are exactly those of the messages in its file, in order |
| Recovery.LiveIndexFiles | sylo/indexer/core.py:109-124 | the month files of an indexer started on an empty directory are the live rows of the theorem |
| Recovery.LiveDayFiles | sylo/receiver/device_writer.py:115-134 | a writer started on an empty directory has a file for every day of which it saved a message, and every file holds exactly the lines of the saved messages of its day; without failed writes there is no other file |
| Recovery.PlainAddressesDoNotCollide | sylo/receiver/device_writer.py:19-21 | addresses without `_` never share a directory |
| Recovery.ListingExists | sylo/receiver/device_writer.py:112-113 | when no two devices share a directory, there is a listing with exactly one file for each device and day written |
| Recovery.Sanitize | sylo/receiver/device_writer.py:19-21 | the directory name has no `:` and is the address itself exactly when that has none |
| Pipeline.StepKeepsInv | sylo/receiver/device_writer.py:138-167 | every step of any writer, the indexer, an arrival or the stop keeps the invariant of the whole receiver: each stage's own laws, the indexer was offered device by device exactly what the writer received, and it is stopped only after all writers are done |
| Pipeline.RunKeepsInv | sylo/receiver/server.py:97-130 | hence at every state of every run |
| Pipeline.StopLosesNothing | sylo/receiver/server.py:117-130 | after a stop without failed file writes every message taken off a queue is in its text file, in order, and was offered to the indexer; offers are rows, counted drops or failed inserts; no buffer and no indexer queue holds anything |
| Pipeline.StopSavesAcceptedExactly | sylo/receiver/server.py:117-124 | over every such run, all that a writer ever accepted is in its files if and only if at no step it accepted a message after it had drained its queue |
| Pipeline.IndexMatchesFiles | sylo/receiver/server.py:125-129 | once stopped, for every device and day the indexed messages are an order-preserving selection of those in the file, and all of them if nothing was dropped |
| Pipeline.RunKeepsGenuine | sylo/receiver/server.py:26-35 | every message anywhere came from an arrival, parsed |
| Stages.StepInv | sylo/receiver/device_writer.py:92-167 | each step keeps conservation, order per key, the counters and bounds, and the shape of the coroutine |
| Stages.RunInv | sylo/receiver/device_writer.py:92-167 | at every state of every run: accepted is the disjoint union of queued, buffered, in flight, saved and failed; offered is accepted plus dropped; the queue is within its limit and the buffer below the threshold; drops never exceed lag warnings when the soft limit is at most the hard one |
| Stages.SavedInOrder | sylo/receiver/device_writer.py:116-118 | at every reachable state the saved messages of a key are an order-preserving selection of the accepted ones |
| Stages.OfferExactly | sylo/receiver/device_writer.py:95-104 | on every reachable state a message is dropped if and only if the queue holds exactly the hard limit, which must be positive, and is queued and accepted otherwise; it counts a lag warning if and only if the queue holds the soft limit or more; nothing else changes |
| Stages.NothingIsDroppedExactly | sylo/receiver/device_writer.py:99-104 | a run drops nothing on arrival, and accepts all it is offered, if and only if no message is offered to a queue at its hard limit |
| Stages.CountersTell | sylo/stats.py:12-17 | after every run each counter is what the history says: offers, offers at the soft limit or beyond, offers at the hard limit, messages kept, and batches lost that count |
| Stages.TakeExactly | sylo/receiver/device_writer.py:150-157 | a message from the queue starts a flush, of the whole buffer and key by key in order, if and only if the buffer reaches the threshold with it; otherwise the loop goes on, or drains when stopping |
| Stages.IdleExactly | sylo/receiver/device_writer.py:145-149 | an idle timeout leaves no message in the buffer: a non-empty one is flushed whole |
| Stages.LoopHeadExactly | sylo/receiver/device_writer.py:140-167 | the loop goes on until a stop is asked for; then all of buffer and queue goes into the last flush, or nothing is left and the stage is done |
| Stages.BatchEndExactly | sylo/indexer/core.py:115-124 | what a batch kept is saved and written; all of a batch lost and counted is dropped; a batch lost without being counted changes no counter |
| Stages.DoneSavesAll | sylo/receiver/device_writer.py:159-167 | a finished stage without failures saved exactly what it took off its queue, each key in order |
| Stages.DoneSavesAcceptedExactly | sylo/receiver/device_writer.py:159-167 | over every run that ended with nothing failed: all accepted messages are saved if and only if none was accepted after the drain, and as many are missing as were |
| Stages.NoLateArrivals | sylo/receiver/device_writer.py:159-161 | none was exactly when at no position of the run a message is offered, and not full, while the last flush is written or later |
| Stages.LateArrivalIsLost | sylo/receiver/device_writer.py:159-167 | a message accepted after the drain, during the last flush or later, stays in the queue whatever follows; all that is ever saved or failed had left the queue before, and it is not counted as dropped |
| Stages.OneIsLost | sylo/receiver/device_writer.py:159-167 | a run of five events that accepts two messages, saves one and counts none as dropped or failed |
| Stages.StoppingEnds | sylo/receiver/device_writer.py:107-110 | once asked to stop, the consumer can always step until it is done, and every step decreases a measure |
| Seqs.GroupInto | sylo/receiver/device_writer.py:116-118 | the loop over `setdefault(...).append` leaves the keys in order of first occurrence, each with exactly its elements in order |
| Seqs.GroupByKeepsOrder | sylo/indexer/core.py:110-113 | flattening the groups again keeps every key's elements in order |
| Seqs.GroupByMultiset | sylo/indexer/core.py:110-113 | and loses and repeats nothing |
| Seqs.FirstKeysGrow | sylo/indexer/core.py:110-113 | keys are in order of first occurrence: later messages only add keys at the end |
| DeviceWriters.DeviceWriter.constructor | sylo/receiver/device_writer.py:65-87 | a new writer satisfies the invariant, and has touched no file |
| DeviceWriters.DeviceWriter.Enqueue | sylo/receiver/device_writer.py:92-105 | the new state is the offer transition: the message is counted as dropped if the queue holds exactly its positive hard limit and queued and accepted otherwise; a lag warning is counted exactly from the soft limit on; files unchanged |
| DeviceWriters.DeviceWriter.Receive | sylo/receiver/device_writer.py:141-157 | the new state is the take transition, and the indexer was offered exactly the messages that left the queue, in order |
| DeviceWriters.DeviceWriter.TimedOut | sylo/receiver/device_writer.py:145-149 | the new state is the idle transition; a stop request leads to the drain, whose messages are all offered to the indexer |
| DeviceWriters.DeviceWriter.ToLoopHead | sylo/receiver/device_writer.py:159-167 | the drain loop moves the whole queue to the buffer and offers every message of it to the indexer |
| DeviceWriters.DeviceWriter.StartFlush | sylo/receiver/device_writer.py:115-118 | the buffer becomes one batch per day in order of first occurrence |
| DeviceWriters.DeviceWriter.WriteDay | sylo/receiver/device_writer.py:123-134 | the new state is the batch-end transition for success or `OSError`; every day file is what was found at start, its tail repaired before the first write, followed by the lines of the saved messages of that day; a failed first write leaves at most the repaired tail |
| DeviceWriters.DeviceWriter.Stop | sylo/receiver/device_writer.py:107-110 | only asks |
| DeviceWriters.DayFileLines | sylo/receiver/device_writer.py:115-134 | a day file at any moment is the lines found at start and then the lines of an order-preserving selection of the accepted messages of that day, all that left the queue once done without failure |
| DeviceWriters.WriteFile | sylo/receiver/device_writer.py:24-54 | repairing the tail and appending the joined text is terminating an unterminated last line and appending each line, encoded, with its newline; a write that fails leaves the file as it was or with its tail repaired |
| TextLog.JoinedText | sylo/receiver/device_writer.py:51 | joining with newlines and adding one is each line encoded and terminated |
| TextLog.WriteSyncLines | sylo/receiver/device_writer.py:24-54 | a write keeps every line of the file and adds exactly the new ones; the file is clean after it |
| TextLog.EveryLineExplained | sylo/receiver/device_writer.py:24-54 | after any run of appends, crashes and restarts each line of the file is a written line, or a prefix of one for at most one line a crash, in the order of writing, none used twice |
| TextLog.RecentLinesIntact | sylo/receiver/device_writer.py:123-136 | the lines appended since the last crash are the last lines of the file, in full and in order |
| TextLog.FsyncedLinesSurvive | sylo/receiver/device_writer.py:53-54 | the lines of the file at an fsync are the first lines of the file ever after |
| TextLog.AnythingMayHappen | sylo/receiver/device_writer.py:24-33 | the runs include every crash that cuts the file at or beyond the synced length, and every append of lines without newlines |
| Lines.SplitConcat | sylo/indexer/rebuild.py:60-61 | after a newline, splitting into lines starts afresh |
| Lines.SplitTruncated | sylo/receiver/device_writer.py:25-29 | cutting a file short keeps the lines before the cut and leaves a prefix of the line cut into |
| ReadBack.DecodedLines | sylo/indexer/rebuild.py:59-61 | decoding a file with replacement and splitting it gives the decoding of each of its lines, however ill-formed their bytes |
| ReadBack.LineRow | sylo/indexer/rebuild.py:64-80 | a written line is read back to the row with its time, the directory as source, and the fields of its normalised payload |
| ReadBack.FileReadBack | sylo/indexer/rebuild.py:57-84 | a file of written messages is rebuilt to exactly one row a message, in order |
| ReadBack.RebuildAfterCrashes | sylo/indexer/rebuild.py:57-84 | after any crashes, every line but at most one a crash gives exactly the row of the message it was written for, in order |
| Rebuild.RebuildIndexer | sylo/indexer/rebuild.py:22-54 | exactly the months that have a log file and were asked for, or all that have one without a choice, are made anew: such a month holds the rows of its files in listing order and nothing else, its search table in step, and their count; every other month is as before and has no count |
| Rebuild.ListingParts | sylo/indexer/rebuild.py:32-34 | the files read are every log file of every directory and no other, directory by directory |
| Rebuild.NewlinesAreUniversal | sylo/indexer/rebuild.py:59 | text mode leaves no carriage return, and each of the three line ends ends one line |
| Rebuild.LineParts | sylo/indexer/rebuild.py:61-81 | a line without a space gives no row; of any other the text up to the first space is the time and the rest the payload |
| Rebuild.RebuildFile | sylo/indexer/rebuild.py:57-84 | the rows of the file's lines are appended, and counted |
| Rebuild.InsertLine | sylo/indexer/rebuild.py:61-81 | a line without a separator gives no row, any other exactly one |
| IndexerCore.Indexer.constructor | sylo/indexer/core.py:70-82 | a new indexer satisfies the invariant, its month files as found |
| IndexerCore.Indexer.Enqueue | sylo/indexer/core.py:87-100 | the new state is the offer transition: dropped and counted exactly at the positive hard limit, queued and accepted otherwise, with a lag warning exactly from the soft limit on; the index is unchanged |
| IndexerCore.Indexer.Dequeue | sylo/indexer/core.py:130-142 | the new state is the take transition |
| IndexerCore.Indexer.TimedOut | sylo/indexer/core.py:133-137 | the new state is the idle transition |
| IndexerCore.Indexer.ToLoopHead | sylo/indexer/core.py:144-149 | the drain moves the whole queue into the last batches |
| IndexerCore.Indexer.StartFlush | sylo/indexer/core.py:109-113 | the buffer becomes one batch per month |
| IndexerCore.Indexer.WriteMonth | sylo/indexer/core.py:115-124 | a refused batch adds its size to the dropped and changes neither index nor written; a batch that ran adds the rows that did not fail to the file of their month and counts exactly those as written; every month file still is what was found at start followed by the saved rows of that month in order |
| IndexerCore.Indexer.Stop | sylo/indexer/core.py:102-107 | only asks |
| IndexerCore.InsertBatch | sylo/indexer/core.py:35-53 | exactly the rows whose insert did not fail are appended, in order, and counted |
| IndexerCore.InsertedExactly | sylo/indexer/core.py:36-51 | they are those at the positions that did not fail, each once and in order |
| IndexerCore.RowsAreInTheirMonth | sylo/indexer/core.py:109-118 | every row the indexer ever inserted is in the file named by the first seven characters of its time |
| Servers.SyslogServer.constructor | sylo/receiver/server.py:97-101 | a new server has no writer, an empty indexer, and a trace of one state |
| Servers.SyslogServer.GetOrCreate | sylo/receiver/device_writer.py:188-201 | returns the device's writer, a new one only if there was none, and leaves the others alone |
| Servers.SyslogServer.Arrive | sylo/receiver/server.py:26-35 | the objects' states make the arrival step of the pipeline |
| Servers.SyslogServer.RunWriter | sylo/receiver/device_writer.py:138-167 | resuming a writer object makes one step of the pipeline, indexer included |
| Servers.SyslogServer.RunIndexer | sylo/indexer/core.py:126-149 | resuming the indexer object makes one step of the pipeline |
| Servers.SyslogServer.StopWriters | sylo/receiver/device_writer.py:203-204 | the loop asks every writer object to stop, as one step of the pipeline |
| Servers.SyslogServer.StopIndexer | sylo/receiver/server.py:125-129 | once all writers have returned, the indexer object is asked to stop, as one step of the pipeline |
| Servers.SyslogServer.Serve | sylo/receiver/server.py:97-130 | for any schedule of arrivals, resumptions and stops the objects do turn by turn exactly what the pipeline does, and what cannot happen at its time is passed over |
| Envelope.InsertMessage | sylo/indexer/schema.py:59-80 | the row is appended under the next id, and the search table stays in step with the rows |
| Envelope.LineHasNoBreaks | sylo/receiver/envelope.py:73-82 | the line of any message, as text and encoded, has neither newline nor carriage return |
| Envelope.NormalExactly | sylo/receiver/envelope.py:81 | a payload comes back unchanged if and only if it is the encoding of a text without line breaks; normalising twice is normalising once |
| Utf8.DecodeEncode | sylo/indexer/rebuild.py:68 | text survives encoding and decoding |
| Utf8.DecodeStepExactly | sylo/parser.py:37-38 | one step of decoding gives the encoded character the bytes begin with; otherwise one replacement character for the longest beginning of an encoded character, and at least one byte |
| Utf8.EncodedSamples | sylo/indexer/rebuild.py:68 | the encodings at both ends of each length |
| Utf8.DecodeSplitsAtAscii | sylo/receiver/envelope.py:81 | decoding with replacement never swallows an ASCII byte, whatever comes before it |
| TimeUtil.RenderedOrder | sylo/timeutil.py:6-14 | comparing rendered times as strings is comparing the instants, to the microsecond |
| TimeUtil.RenderedInjective | sylo/timeutil.py:6-14 | no two instants share a rendering |
| TimeUtil.RenderedPrefixes | sylo/indexer/core.py:112 | the rendering has 32 characters and no space, its first seven are the indexer's month key, its first ten the name of the day file |
| TimeUtil.RenderedFields | sylo/timeutil.py:14 | where each field of the rendering is, read back as a number, and the separators and the suffix `+00:00` |
| TimeUtil.EveryMicrosecond | sylo/timeutil.py:6-14 | the times of a day are exactly its 86400000000 microseconds |
| TimeUtil.DigitsOfANumber | sylo/timeutil.py:14 | how numbers are written, by example |
| TimeUtil.FixedWidthExactly | sylo/timeutil.py:7 | the width is fixed exactly from the year 1000 on |
| TimeUtil.ShortYearsBreakTheOrder | sylo/timeutil.py:14 | an instant in the year 999 renders after one in the year 1000 |
| Parser.RoundTrip5424 | sylo/parser.py:122-143 | any message printed by section 6 of RFC 5424 parses to its PRI div and mod 8, its host and app-name (none for `-`) and exactly its MSG, not malformed |
| Parser.Printable5424 | sylo/parser.py:16-19 | printable are a PRI up to 191, five fields that are not empty and hold no white space, NILVALUE or one or more SD-ELEMENTs with proper names, and any MSG or none |
| Parser.Layout5424 | sylo/parser.py:16-19 | what is printed: `<PRI>1 ` and the fields, structured data and MSG set off by single spaces |
| Parser.RoundTrip3164 | sylo/parser.py:145-158 | any message printed by section 4.1 of RFC 3164 parses to its facility, severity, host, tag and content, not malformed |
| Parser.Printable3164 | sylo/parser.py:20-24 | printable are a PRI up to 191, a timestamp of three word characters, one or two spaces, one or two digits and a clock, a host without white space, a tag of 1 to 32 bytes without `:`, `[` and white space, a numeric pid or none, and any content |
| Parser.Layout3164 | sylo/parser.py:20-24 | what is printed: `<PRI>`, timestamp, host, tag, `[pid]` if there is one, `: ` and the content |
| Parser.MessageIsPayloadSuffix | sylo/parser.py:122-176 | for every input the undecoded message is a suffix of the payload |
| Parser.MalformedExactly | sylo/parser.py:122-176 | for every input: not malformed if and only if it is a PRI up to 191 followed by one of the two headers; facility and severity come together, in 0..23 and 0..7 |
| Parser.ParseExactly | sylo/parser.py:122-176 | for every payload, by the grammars alone: behind the PRI, if one counts, the fields of the RFC 5424 header with `-` for none, those of the RFC 3164 header with its tag or without, or no field and the whole rest as a malformed message |
| Parser.EmptyParse | sylo/parser.py:123-124 | an empty payload is an empty malformed message |
| StructuredData.SplitStructuredData | sylo/parser.py:41-94 | the nested loops end, also when an escape moves the index past the end, and return the message the grammar gives |
| StructuredData.ElementExact | sylo/parser.py:69-89 | the scanner ends an element exactly where the quoting grammar has its closing bracket |
| StructuredData.MessageSuffix | sylo/parser.py:56-94 | the scanner returns a suffix of its input, and the whole of it when an element is unterminated |
| StructuredData.MessageExactly | sylo/parser.py:56-94 | for every remainder: after NILVALUE, or after one or more closed elements, the message without one leading space; everything when it begins with neither, or with an element that is not closed |
| StructuredData.PrintedElementsScan | sylo/parser.py:65-92 | any list of SD-ELEMENTs escaped by section 6.3.3 of RFC 5424 is skipped exactly |
| StructuredData.PrintedLayout | sylo/parser.py:41-55 | how elements are printed: bracketed one after the other, the parameters set off by spaces, each a name, `=` and a quoted value |
| StructuredData.EscapedParts | sylo/parser.py:52-53 | a value is printed byte by byte, with a backslash before a quote, a backslash or a closing bracket and before nothing else |
| StructuredData.SdNameExactly | sylo/parser.py:42-45 | an SD-NAME is 1 to 32 printable characters other than `=`, `]` and the quote |
| StructuredData.SplitPrinted | sylo/parser.py:41-94 | behind NILVALUE or any printed elements, exactly MSG is left |
| Matchers.MatchPriExact | sylo/parser.py:15 | the matcher succeeds exactly on the strings of the pattern, with the only possible groups |
| Matchers.SplitPri | sylo/parser.py:97-105 | facility and severity come together and in range; what is left is a suffix |
| Matchers.SplitPriExactly | sylo/parser.py:97-105 | facility and severity are the PRI div and mod 8 exactly for a PRI up to 191, which alone is taken off; anything else stays whole |
| Matchers.ClassesListed | sylo/parser.py:15-24 | the character classes of the patterns |
| Matchers.Characters | sylo/parser.py:56-94 | which characters the named bytes are |
| Matchers.Match5424Exact | sylo/parser.py:17-19 | the matcher succeeds exactly on the strings of the pattern, with the only possible groups |
| Matchers.Match3164Exact | sylo/parser.py:21-23 | the same for the RFC 3164 header |
| Matchers.MatchTagExact | sylo/parser.py:24 | the same for the tag, its optional pid and the skipped space |
| Matchers.HeadersExclusive | sylo/parser.py:129-145 | no input matches both headers |
| Sorting.SortSorts | sylo/webapp/queries.py:140 | the descending sort is descending, a permutation, and keeps the order of equal keys |
| Sorting.TakeMerge | sylo/webapp/queries.py:112-119 | the first n of a merge depend only on the first n of each side |
| Queries.SearchMessages | sylo/webapp/queries.py:108-143 | of all matching rows of the months read, sorted and ties included, the page is those from offset to offset + limit as far as there are, and has_more is true exactly when more than offset + limit rows match |
| Queries.FilterMeaning | sylo/webapp/queries.py:66-105 | a filter accepts what each of its fields accepts: hosts, severity and facility by equality, so never a row without them, bounds inclusive, malformed rows only; absent and empty fields accept every row |
| Queries.DefaultMonths | sylo/webapp/queries.py:48-52 | without a bound the months read are as many as configured, or all there are, newest first, and none left out is newer than one read |
| Queries.CappedIsExact | sylo/webapp/queries.py:109-119 | capping every month at k rows does not change the first k of the sorted whole |
| Queries.BrowseSeesAll | sylo/webapp/queries.py:141-143 | the pages followed from any offset until has_more is false are exactly the rest of the sorted list |
| Queries.PagesAreComplete | sylo/webapp/queries.py:108-143 | from the first page on: every match exactly as often as it is there, newest first, ties in order |
| Queries.PruningLosesNothing | sylo/webapp/queries.py:47-63 | leaving out months by the first seven characters of the bounds loses no matching row, whatever the bounds look like |
| Queries.BoundedSearchSeesAllMonths | sylo/webapp/queries.py:53-63 | with a bound given, the search is over all available months |
| Queries.MonthsReadExactly | sylo/webapp/queries.py:53-63 | with a bound given, a month is read exactly if for each bound there is a time in it on the right side |
| Queries.LiveIndexIsPartitioned | sylo/indexer/core.py:109-118 | every index that live ingest builds has the property these results rest on |
| Queries.RelevantNewestFirst | sylo/webapp/queries.py:41-63 | the months read come newest first, each once |
| Queries.MergedIsSorted | sylo/webapp/queries.py:125-140 | with months newest first, the merged rows already are in descending order |
| Queries.SortMovesNothing | sylo/webapp/queries.py:140 | so the final sort leaves them alone |
| Devices.ListDevices | sylo/webapp/queries.py:146-195 | folding the per-month groups, in whatever order the months come, is a GROUP BY over all their rows: each key once, with its count and its latest time; address and host are those of the first group read that has this time; sorted by last seen |
| Devices.GroupByDetermined | sylo/webapp/queries.py:172-176 | counts and last-seen times of a GROUP BY depend only on the rows as a multiset |
| Devices.OneDevice | sylo/webapp/queries.py:146-155 | rows with a host are one device if they share it, whatever their addresses; rows without one are told apart by address |
| Devices.CountsAddUp | sylo/webapp/queries.py:182-189 | the counts sum to the number of rows read |
| LiveTail.EmittedExactlyOnce | sylo/webapp/routes/messages.py:140-163 | over any interleaving of inserts and polls, the rows emitted are exactly those above the seed and up to the cursor, in id order, each once, also when the table was empty at seeding |
| LiveTail.EmitsWhatIsInserted | sylo/webapp/routes/messages.py:150-163 | in terms of the events alone: the first poll emits nothing; from then on what was emitted are the rows inserted since that poll, from the first on and in order, and all of them exactly when no backlog is left |
| LiveTail.CatchesUp | sylo/webapp/routes/messages.py:155-163 | without further inserts a backlog of b rows is emitted by any number of polls that is at least b / 200 |
| LiveTail.NotSooner | sylo/webapp/routes/messages.py:155-163 | and by no fewer |
| LiveTail.TailGenerator.Turn | sylo/webapp/routes/messages.py:171-181 | one turn emits the polled rows and moves only the cursor of the current month |
| Retention.MonthEndIsLast | sylo/retention/core.py:27-31 | the computed end is one day before the first of the next month, the last day of the month, leap years included, and no later day is in the month; month 00 ends with the year before |
| Calendar.PreviousDayOrdinal | sylo/retention/core.py:31 | taking a day off a date takes one off its day number, across months, leap days and years |
| Calendar.MonthStarts | sylo/retention/core.py:31 | the lengths of the months agree with the closed form for days since 1 March, with 29 days in February exactly in leap years |
| Calendar.Anchored | sylo/retention/core.py:41 | day numbers start with 1 January of year 1, reach 719163 on 1 January 1970, and repeat after 146097 days |
| Retention.ExpiredMonthKeys | sylo/retention/core.py:40-49 | exactly the listed months, but the running one, whose last day is before the cutoff, in listing order; fails if a name has no end as a month |
| Retention.CurrentMonthNeverAges | sylo/retention/core.py:45-46 | with a window of at least 0 days the running month has not aged |
| Retention.GuardChangesNothing | sylo/retention/core.py:53 | so neither the guard nor the assertions change the outcome of a pass |
| Retention.NeighbourMonthNeverAges | sylo/retention/core.py:91 | with a window of at least a day the month of a date one day off has not aged either |
| Retention.DeleteIndexMonth | sylo/retention/core.py:52-62 | exactly the files of the month go, with their sidecars, and are counted |
| Retention.DeleteRawMonth | sylo/retention/core.py:65-76 | exactly the text files of the month go, in all directories, and are counted |
| Retention.RunRetention | sylo/retention/core.py:79-101 | for all days and directories: exactly the daily text files and index files of months go that have an index file, are not the running one and ended more than the window ago; the summary names the months in order and counts the files; an unreadable month name fails the pass before anything is deleted |
| Retention.DeletedFilesAreOld | sylo/retention/core.py:65-76 | every daily text file a pass deletes is older than the cutoff |
| Retention.PassExactly | sylo/retention/core.py:65-76 | a daily text file goes if and only if its month has an index file and the last day of the month is before the cutoff |
| Retention.DroppedExactly | sylo/retention/core.py:79-101 | in a pass with its guard, daily files and index files with their sidecars go if and only if besides the month is not the running one |
| Retention.InMonthExactly | sylo/retention/core.py:73 | the names deleted with a month are exactly the month, a dash, anything, and `.log` |
| Retention.AgedExactly | sylo/retention/core.py:47 | a month has aged exactly when its last day is before the cutoff |
| Retention.CanonicalParses | sylo/retention/core.py:28-31 | a name in canonical form is read as its year and month exactly if the month has an end |
| Retention.OnlyCanonicalParses | sylo/retention/core.py:28-31 | no name out of canonical form is read |
| Retention.NoIndexNoDeletion | sylo/retention/core.py:34-37 | the text of a month without an index file is left alone |
| Retention.TwoPasses | sylo/retention/core.py:79-101 | a pass and then a later one leave what the later one alone leaves; repeating a pass drops nothing |
| RateLimiter.LoginRateLimiter.IsLocked | sylo/webapp/auth.py:131-139 | answers whether the lockout is still running, forgets one that has ended, and touches no other key |
| RateLimiter.LoginRateLimiter.RecordFailure | sylo/webapp/auth.py:141-149 | keeps the recent failures and the new one, or starts a lockout with an empty list, and touches no other key |
| RateLimiter.LoginRateLimiter.RecordSuccess | sylo/webapp/auth.py:151-154 | forgets the key and no other |
| RateLimiter.PruningDecidesTheSame | sylo/webapp/auth.py:141-149 | with a clock that does not run backwards, the pruned list decides at every later moment as all failures since the last success or lockout, filtered to the window, would; it stays shorter than the maximum |
| RateLimiter.RecentExactly | sylo/webapp/auth.py:144 | kept are exactly the times less than a window ago, part by part of any list |
| RateLimiter.AtMostMaxAttemptsPerWindow | sylo/webapp/routes/auth.py:35-53 | if a lockout lasts at least a window, then for one key and any interleaving of failing requests, at most k of them under way at once, the failure recorded max_attempts + k - 1 places after another comes at least a window later; k = 1 for requests one after the other |
| RateLimiter.BoundIsReached | sylo/webapp/routes/auth.py:35-53 | that many failures can be recorded at one moment |
| RateLimiter.ThrottlesExactly | sylo/webapp/config.py:30-32 | for every k the bound holds of all interleavings if and only if a lockout lasts at least a window |

## Left out

- `StatsRegistry` as a class: the counters are fields of the writers and the indexer.
- Writers created once the stop has begun: `Servers.SyslogServer.Arrive` asks that there be none.
- `_last_fsync` and the choice of when to fsync: the crash theorems hold of every schedule.
- DeviceWriters.DeviceWriter.WriteDay: does not model a failed write that left part of its lines behind, because the code's own view of a write is all or nothing unless the machine fails. The crash model has torn writes.
- `queued` in `QueueStats`: a last-observed gauge, not updated during the drain.
- IndexerCore.InsertBatch: does not model an insert that fails between the row and its search entry, which leaves the row uncounted and out of the search table, because rows are inserted whole or not at all here.
- IndexerCore.Indexer.WriteMonth: does not model a commit that fails after rows were inserted, whose rows a later commit may still store, because a batch is refused whole or ran here.
- Rebuild.RebuildFile: does not model failing inserts in the rebuild tool.
- SQLite itself: MATCH is an arbitrary predicate on rows, ties in ORDER BY are in some fixed order per file, ids grow by one. Month files that cannot be opened or vanish during a search are not modelled, and neither are write-ahead logging and pragmas.
- The column list a query returns: a row is the whole row.
- Sockets and TCP framing in `sylo/receiver/server.py`: an arrival is a payload with its time and address.
- A writer without an indexer: the forwarding is always on.
- Translation of line ends on Windows when writing.
- The UTF-16 surrogates a Python string may hold: a character is a Unicode scalar value, so encoding never fails.
- `parse_syslog`'s handler for exceptions: no step of the model raises any. A PRI is at most three digits.
- Retention.RunRetention: does not model month names out of canonical form that `int()` accepts, nor a cutoff before year 1, nor a day before the year 1000, because no component writes the first and no clock gives the others.
- The live tail across a change of month: the new month is seeded anew, so exactly-once is not meant there.
- RateLimiter: time is a real number, and the lock is taken for granted, so each call is one step.
- Password hashing, sessions, CSRF, user administration, health reports, configuration, templates, services and installers: they would add only easy members.
