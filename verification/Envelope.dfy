/** sylo/receiver/envelope.py and sylo/indexer/schema.py: a message before and after parsing,
    its line in the text file, and its row in the index. */
module Envelope {
  import opened Wrappers
  import opened Utf8
  import opened Parser
  import opened TimeUtil

  datatype RawMessage = RawMessage(raw: bytes, receiptTime: Timestamp, sourceIp: string, sourcePort: int, transport: string)

  datatype MessageEnvelope = MessageEnvelope(receiptTime: Timestamp, sourceIp: string, sourcePort: int, transport: string,
                                             raw: bytes, fields: ParsedFields)

  /** `MessageEnvelope.from_raw` */
  function FromRaw(m: RawMessage): MessageEnvelope {
    MessageEnvelope(m.receiptTime, m.sourceIp, m.sourcePort, m.transport, m.raw, ParseSyslog(m.raw))
  }

  function DayOf(m: MessageEnvelope): string { IsoDay(m.receiptTime.date) }
  function MonthOf(m: MessageEnvelope): string { MonthKeyOf(m.receiptTime.date) }
  function DeviceOf(m: MessageEnvelope): string { m.sourceIp }
  function PlaceOf(m: MessageEnvelope): (string, string) { (DeviceOf(m), DayOf(m)) }

  // ----- the line in the text file -----

  function OneLine(s: string): (t: string)
    ensures |t| == |s|
    ensures '\r' !in t && '\n' !in t
    ensures '\r' !in s && '\n' !in s ==> t == s
  {
    seq(|s|, i requires 0 <= i < |s| => if s[i] == '\r' || s[i] == '\n' then ' ' else s[i])
  }

  /** `to_line` */
  function ToLine(m: MessageEnvelope): string {
    FormatReceiptTime(m.receiptTime) + " " + OneLine(Decode(m.raw))
  }

  /** The payload as it comes back out of the text file. */
  function Normalize(raw: bytes): bytes { Encode(OneLine(Decode(raw))) }

  /** Well-formed UTF-8 without line breaks comes back unchanged ... */
  lemma {:induction false} CleanTextIsNormal(text: string)
    requires '\r' !in text && '\n' !in text
    ensures Normalize(Encode(text)) == Encode(text)
  {
    DecodeEncode(text);
  }

  /** ... and nothing else does. */
  lemma {:induction false} NormalExactly(raw: bytes)
    ensures Normalize(raw) == raw <==> exists text: string :: '\r' !in text && '\n' !in text && raw == Encode(text)
    ensures Normalize(Normalize(raw)) == Normalize(raw)
  {
    forall text: string | '\r' !in text && '\n' !in text && raw == Encode(text) ensures Normalize(raw) == raw {
      CleanTextIsNormal(text);
    }
    CleanTextIsNormal(OneLine(Decode(raw)));
  }

  lemma {:induction false} LineHasNoBreaks(m: MessageEnvelope)
    ensures '\n' !in ToLine(m) && '\r' !in ToLine(m) && ToLine(m) != []
    ensures 10 !in Encode(ToLine(m)) && 13 !in Encode(ToLine(m))
  {
    TimestampHasNoBreaks(m.receiptTime);
    if 10 in Encode(ToLine(m)) {
      EncodedAscii(ToLine(m), 10);
    }
    if 13 in Encode(ToLine(m)) {
      EncodedAscii(ToLine(m), 13);
    }
  }

  lemma {:induction false} TimestampHasNoBreaks(t: Timestamp)
    ensures '\n' !in FormatReceiptTime(t) && '\r' !in FormatReceiptTime(t)
  {
    hide Lex.Pad, Lex.Dec;
    YearIsFourDigits(t.date);
    forall c | c == '\r' || c == '\n' ensures c !in FormatReceiptTime(t) {
      Lex.PadHasNo(t.date.year, 4, c);
      Lex.PadHasNo(t.date.month, 2, c);
      Lex.PadHasNo(t.date.day, 2, c);
      Lex.PadHasNo(t.hour, 2, c);
      Lex.PadHasNo(t.minute, 2, c);
      Lex.PadHasNo(t.second, 2, c);
      Lex.PadHasNo(t.micro, 6, c);
    }
  }

  // ----- the row in the index -----

  datatype Row = Row(receiptTime: string, sourceIp: string, fields: ParsedFields)

  function RowOf(m: MessageEnvelope): Row {
    Row(FormatReceiptTime(m.receiptTime), m.sourceIp, m.fields)
  }

  datatype FtsRow = FtsRow(rowid: nat, message: string, host: Option<string>, tag: Option<string>)

  /** One monthly index file. The row with id n is messages[n - 1]. */
  datatype MonthDb = MonthDb(messages: seq<Row>, fts: seq<FtsRow>) {
    // External-content search stays in step with the rows only if every insert feeds both.
    ghost predicate InSync() {
      && |fts| == |messages|
      && forall i :: 0 <= i < |fts| ==>
           && fts[i].rowid == i + 1 && fts[i].message == messages[i].fields.message
           && fts[i].host == messages[i].fields.host && fts[i].tag == messages[i].fields.tag
    }
  }

  const EMPTY_MONTH := MonthDb([], [])

  /** `insert_message`: the row, then its search entry under the same id. */
  method InsertMessage(db: MonthDb, row: Row) returns (db': MonthDb, rowid: nat)
    ensures db'.messages == db.messages + [row] && rowid == |db'.messages|
    ensures db.InSync() ==> db'.InSync()
  {
    var messages := db.messages + [row];
    rowid := |messages|;
    db' := MonthDb(messages, db.fts + [FtsRow(rowid, row.fields.message, row.fields.host, row.fields.tag)]);
  }
}
