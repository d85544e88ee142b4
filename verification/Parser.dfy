/** sylo/parser.py: the tolerant RFC 3164 / RFC 5424 parser, shared by live ingest and rebuild,
    and the printers of the two standards it must invert. */
module Parser {
  import opened Wrappers
  import opened Utf8
  import opened Matchers
  import opened StructuredData

  datatype ParsedFields = ParsedFields(facility: Option<nat>, severity: Option<nat>, host: Option<string>,
                                       tag: Option<string>, message: string, malformed: bool)

  // The same before decoding.
  datatype RawFields = RawFields(facility: Option<nat>, severity: Option<nat>, host: Option<bytes>,
                                 tag: Option<bytes>, message: bytes, malformed: bool)

  // NILVALUE
  function DashIsNone(field: bytes): Option<bytes> {
    if field == [DASH] then None else Some(field)
  }

  function ParseBytes(raw: bytes): RawFields {
    if raw == [] then RawFields(None, None, None, None, [], true)
    else
      var p := SplitPri(raw);
      var malformed := p.facility.None?;
      match Match5424(p.rest)
      case Some(h) =>
        RawFields(p.facility, p.severity, DashIsNone(h.host), DashIsNone(h.app), Message(h.remainder), malformed)
      case None =>
        match Match3164(p.rest)
        case Some(h) =>
          (match MatchTag(h.remainder)
           case Some(t) => RawFields(p.facility, p.severity, Some(h.host), Some(t.name), t.msg, malformed)
           case None => RawFields(p.facility, p.severity, Some(h.host), None, h.remainder, malformed))
        case None => RawFields(p.facility, p.severity, None, None, p.rest, true)
  }

  function DecodeField(field: Option<bytes>): Option<string> {
    match field case None => None case Some(b) => Some(Decode(b))
  }

  function ParseSyslog(raw: bytes): ParsedFields {
    var f := ParseBytes(raw);
    ParsedFields(f.facility, f.severity, DecodeField(f.host), DecodeField(f.tag), Decode(f.message), f.malformed)
  }

  // ----- every input -----

  lemma {:induction false} SuffixTrans(a: bytes, b: bytes, c: bytes)
    requires Suffix(a, b) && Suffix(b, c)
    ensures Suffix(a, c)
  {
    SuffixOfTail(a, c, |c| - |b|);
  }

  // What follows some text is a suffix of the whole.
  lemma {:induction false} SuffixOfConcat(a: bytes, b: bytes)
    ensures Suffix(b, a + b)
  {
  }

  lemma {:induction false} SpacedSuffix(tokens: seq<bytes>, rest: bytes)
    ensures Suffix(rest, Spaced(tokens, rest))
  {
    if tokens != [] {
      SpacedSuffix(tokens[1..], rest);
      SuffixOfConcat(tokens[0] + [SP], Spaced(tokens[1..], rest));
      SuffixTrans(rest, Spaced(tokens[1..], rest), Spaced(tokens, rest));
    }
  }

  lemma {:induction false} Remainder5424Suffix(h: Header5424)
    ensures Suffix(h.remainder, h.Text())
  {
    SpacedSuffix(h.Tokens(), h.remainder);
    SuffixOfConcat([49, SP], Spaced(h.Tokens(), h.remainder));
    SuffixTrans(h.remainder, Spaced(h.Tokens(), h.remainder), h.Text());
  }

  lemma {:induction false} Remainder3164Suffix(h: Header3164)
    ensures Suffix(h.remainder, h.Text())
  {
    var clock := h.ClockCut().Text();
    SuffixOfConcat(h.host + [h.sp3], h.remainder);
    SuffixOfConcat(h.clock + [h.sp2], h.HostCut().Text());
    SuffixTrans(h.remainder, h.HostCut().Text(), clock);
    SuffixOfConcat(h.day + [h.sp1], clock);
    SuffixTrans(h.remainder, clock, h.Date().day.Text());
    SuffixOfConcat(h.gap, h.Date().day.Text());
    SuffixOfConcat(h.month, h.gap + h.Date().day.Text());
    SuffixTrans(h.Date().day.Text(), h.gap + h.Date().day.Text(), h.Text());
    SuffixTrans(h.remainder, h.Date().day.Text(), h.Text());
  }

  lemma {:induction false} TagMsgSuffix(m: TagMatch)
    ensures Suffix(m.msg, m.Text())
  {
    var tail := [COLON] + (m.skipped + m.msg);
    SuffixOfConcat(m.skipped, m.msg);
    SuffixOfConcat([COLON], m.skipped + m.msg);
    SuffixOfConcat(PidText(m.pid), tail);
    SuffixOfConcat(m.name, PidText(m.pid) + tail);
    SuffixTrans(m.msg, m.skipped + m.msg, tail);
    SuffixTrans(m.msg, tail, PidText(m.pid) + tail);
    SuffixTrans(m.msg, PidText(m.pid) + tail, m.Text());
  }

  /** Whatever arrives, the message is the tail of the payload: no byte of it is made up or
      reordered, and everything after the recognised header is kept. */
  lemma {:induction false} MessageIsPayloadSuffix(raw: bytes)
    ensures Suffix(ParseBytes(raw).message, raw)
  {
    if raw != [] {
      var p := SplitPri(raw);
      var message := ParseBytes(raw).message;
      if Match5424(p.rest).Some? {
        var h := Match5424(p.rest).value;
        Match5424Exact(p.rest, h);
        MessageSuffix(h.remainder);
        Remainder5424Suffix(h);
        SuffixTrans(message, h.remainder, p.rest);
      } else if Match3164(p.rest).Some? {
        var h := Match3164(p.rest).value;
        Match3164Exact(p.rest, h);
        Remainder3164Suffix(h);
        if MatchTag(h.remainder).Some? {
          MatchTagExact(h.remainder, MatchTag(h.remainder).value);
          TagMsgSuffix(MatchTag(h.remainder).value);
        }
        SuffixTrans(message, h.remainder, p.rest);
      }
      SuffixTrans(message, p.rest, raw);
    }
  }

  ghost predicate HasHeader(b: bytes) {
    || (exists h: Header5424 :: h.Valid() && b == h.Text())
    || (exists h: Header3164 :: h.Valid() && b == h.Text())
  }

  ghost predicate WellFormed(raw: bytes) {
    exists m: PriMatch :: m.Valid() && raw == m.Text() && DecimalValue(m.digits) <= 191 && HasHeader(m.rest)
  }

  lemma {:induction false} HeaderFound(b: bytes)
    ensures HasHeader(b) <==> Match5424(b).Some? || Match3164(b).Some?
  {
    if Match5424(b).Some? {
      Match5424Exact(b, Match5424(b).value);
    }
    if Match3164(b).Some? {
      Match3164Exact(b, Match3164(b).value);
    }
    forall h: Header5424 | h.Valid() && b == h.Text() ensures Match5424(b).Some? {
      Match5424Complete(h);
    }
    forall h: Header3164 | h.Valid() && b == h.Text() ensures Match3164(b).Some? {
      Match3164Exact(b, h);
    }
  }

  lemma {:induction false} ParsedPri(raw: bytes)
    ensures ParseBytes(raw).facility == SplitPri(raw).facility && ParseBytes(raw).severity == SplitPri(raw).severity
  {
    hide Match5424, Match3164, MatchTag, Message;
  }

  lemma {:induction false} NotMalformed(raw: bytes)
    ensures !ParseBytes(raw).malformed <==>
            raw != [] && SplitPri(raw).facility.Some? && HasHeader(SplitPri(raw).rest)
  {
    hide SplitPri, Match5424, Match3164, HasHeader, MatchTag, Message;
    HeaderFound(SplitPri(raw).rest);
  }

  /** A message is clean exactly when it is a PRI up to 191 followed by one of the two headers;
      a facility comes with a severity, both within their ranges. */
  lemma {:induction false} MalformedExactly(raw: bytes)
    ensures !ParseSyslog(raw).malformed <==> WellFormed(raw)
    ensures ParseSyslog(raw).facility.Some? <==> ParseSyslog(raw).severity.Some?
    ensures ParseSyslog(raw).facility.Some? ==> ParseSyslog(raw).facility.value <= 23 && ParseSyslog(raw).severity.value <= 7
  {
    hide ParseBytes, HasHeader, MatchPri, DecimalValue;
    NotMalformed(raw);
    ParsedPri(raw);
    if MatchPri(raw).Some? {
      MatchPriExact(raw, MatchPri(raw).value);
    }
    forall m: PriMatch | m.Valid() && raw == m.Text() ensures MatchPri(raw) == Some(m) {
      MatchPriExact(raw, m);
    }
  }

  ghost predicate IsHeader5424(b: bytes, h: Header5424) { h.Valid() && b == h.Text() }
  ghost predicate IsHeader3164(b: bytes, h: Header3164) { h.Valid() && b == h.Text() }
  ghost predicate IsTag(b: bytes, t: TagMatch) { t.Valid() && b == t.Text() }

  /** What every payload parses to, by the grammars alone. `MessageExactly` says the same of the
      message behind an RFC 5424 header. */
  lemma {:induction false} ParseExactly(raw: bytes, p: Pri)
    requires raw != [] && IsPri(raw, p)
    ensures forall h :: IsHeader5424(p.rest, h) ==>
              ParseBytes(raw) == RawFields(p.facility, p.severity, if h.host == [DASH] then None else Some(h.host),
                                           if h.app == [DASH] then None else Some(h.app), Message(h.remainder), p.facility == None)
    ensures forall h, t :: IsHeader3164(p.rest, h) && IsTag(h.remainder, t) ==>
              ParseBytes(raw) == RawFields(p.facility, p.severity, Some(h.host), Some(t.name), t.msg, p.facility == None)
    ensures forall h :: IsHeader3164(p.rest, h) && (forall t :: !IsTag(h.remainder, t)) ==>
              ParseBytes(raw) == RawFields(p.facility, p.severity, Some(h.host), None, h.remainder, p.facility == None)
    ensures (forall h :: !IsHeader5424(p.rest, h)) && (forall h :: !IsHeader3164(p.rest, h)) ==>
              ParseBytes(raw) == RawFields(p.facility, p.severity, None, None, p.rest, true)
  {
    hide SplitPri, Match5424, Match3164, MatchTag, Message, IsPri;
    SplitPriExactly(raw, p);
    forall h ensures IsHeader5424(p.rest, h) <==> Match5424(p.rest) == Some(h) {
      Match5424Exact(p.rest, h);
    }
    forall h ensures IsHeader3164(p.rest, h) <==> Match3164(p.rest) == Some(h) {
      Match3164Exact(p.rest, h);
    }
    HeadersExclusive(p.rest);
    if Match3164(p.rest).Some? {
      var remainder := Match3164(p.rest).value.remainder;
      forall t ensures IsTag(remainder, t) <==> MatchTag(remainder) == Some(t) {
        MatchTagExact(remainder, t);
      }
    }
  }

  /** And nothing at all parses to nothing at all, which is malformed. */
  lemma {:induction false} EmptyParse()
    ensures ParseBytes([]) == RawFields(None, None, None, None, [], true)
    ensures ParseSyslog([]) == ParsedFields(None, None, None, None, "", true)
  {
  }

  // ----- the printer of section 6 of RFC 5424 -----

  datatype Message5424 = Message5424(pri: nat, timestamp: bytes, host: bytes, app: bytes, procid: bytes, msgid: bytes,
                                     sd: Sd, msg: Option<bytes>) {
    predicate Valid() {
      && pri <= 191 && Token(timestamp) && Token(host) && Token(app) && Token(procid) && Token(msgid)
      && sd.Valid()
    }

    function Header(): Header5424 {
      Header5424(timestamp, host, app, procid, msgid, sd.Text() + MsgText(msg))
    }

    function Text(): bytes { PriMatch(DecimalBytes(pri), Header().Text()).Text() }
  }

  /** Which messages can be printed ... */
  lemma {:induction false} Printable5424(m: Message5424)
    ensures m.Valid() <==>
            && m.pri <= 191
            && IsField(m.timestamp) && IsField(m.host) && IsField(m.app) && IsField(m.procid) && IsField(m.msgid)
            && (m.sd.Elements? ==> m.sd.es != [] && forall e :: e in m.sd.es ==> SdName(e.id) && forall p :: p in e.params ==> SdName(p.name))
  {
    hide SdName;
    FieldIsToken(m.timestamp);
    FieldIsToken(m.host);
    FieldIsToken(m.app);
    FieldIsToken(m.procid);
    FieldIsToken(m.msgid);
  }

  // Not empty, and without white space.
  ghost predicate IsField(t: bytes) {
    t != [] && forall b :: b in t ==> b as char != ' ' && !(9 <= b <= 13)
  }

  lemma {:induction false} FieldIsToken(t: bytes)
    ensures Token(t) <==> IsField(t)
  {
  }

  /** ... and how they are laid out. */
  lemma {:induction false} Layout5424(m: Message5424)
    ensures m.Text() == [LT] + DecimalBytes(m.pri) + [GT] + [49, SP] + m.timestamp + [SP] + m.host + [SP] + m.app + [SP] + m.procid + [SP]
                        + m.msgid + [SP] + (if m.sd.Nil? then [DASH] else PrintElements(m.sd.es)) + (if m.msg.Some? then [SP] + m.msg.value else [])
  {
    hide DecimalBytes, PrintElements, Spaced;
    var a, b, c, d, e := m.timestamp, m.host, m.app, m.procid, m.msgid;
    var rest := m.sd.Text() + MsgText(m.msg);
    FiveSpaced(a, b, c, d, e, rest);
    var front := [LT] + DecimalBytes(m.pri) + [GT] + [49, SP];
    assert m.Text() == front + Spaced([a, b, c, d, e], rest);
    Flat(front, a, b, c, d, e, m.sd.Text(), MsgText(m.msg));
  }

  lemma {:induction false} Flat(f: bytes, a: bytes, b: bytes, c: bytes, d: bytes, e: bytes, s: bytes, t: bytes)
    ensures f + (a + [SP] + (b + [SP] + (c + [SP] + (d + [SP] + (e + [SP] + (s + t)))))) ==
            f + a + [SP] + b + [SP] + c + [SP] + d + [SP] + e + [SP] + s + t
  {
    var e1 := e + [SP] + (s + t);
    var d1 := d + [SP] + e1;
    var c1 := c + [SP] + d1;
    var b1 := b + [SP] + c1;
    assert f + (a + [SP] + b1) == f + a + [SP] + b1;
    var g := f + a + [SP];
    assert g + b1 == g + b + [SP] + c1;
    var h := g + b + [SP];
    assert h + c1 == h + c + [SP] + d1;
    var k := h + c + [SP];
    assert k + d1 == k + d + [SP] + e1;
    var l := k + d + [SP];
    assert l + e1 == l + e + [SP] + s + t;
  }

  lemma {:induction false} FiveSpaced(a: bytes, b: bytes, c: bytes, d: bytes, e: bytes, rest: bytes)
    ensures Spaced([a, b, c, d, e], rest) == a + [SP] + (b + [SP] + (c + [SP] + (d + [SP] + (e + [SP] + rest))))
  {
    assert [e][1..] == [] && [d, e][1..] == [e] && [c, d, e][1..] == [d, e] && [b, c, d, e][1..] == [c, d, e] && [a, b, c, d, e][1..] == [b, c, d, e];
    assert Spaced([e], rest) == e + [SP] + rest;
    assert Spaced([d, e], rest) == d + [SP] + Spaced([e], rest);
    assert Spaced([c, d, e], rest) == c + [SP] + Spaced([d, e], rest);
    assert Spaced([b, c, d, e], rest) == b + [SP] + Spaced([c, d, e], rest);
  }

  // A printed PRI is split off again.
  lemma {:induction false} PrintedPri(pri: nat, rest: bytes)
    requires pri <= 191
    ensures SplitPri(PriMatch(DecimalBytes(pri), rest).Text()) == Pri(Some(pri / 8), Some(pri % 8), rest)
  {
    var m := PriMatch(DecimalBytes(pri), rest);
    MatchPriExact(m.Text(), m);
  }

  /** Printing by RFC 5424 and parsing gives the PRI, host and app-name back and exactly the
      message, whatever the structured data contains. */
  lemma {:induction false} RoundTrip5424(m: Message5424)
    requires m.Valid()
    ensures ParseSyslog(m.Text()) ==
            ParsedFields(Some(m.pri / 8), Some(m.pri % 8), if m.host == [DASH] then None else Some(Decode(m.host)),
                         if m.app == [DASH] then None else Some(Decode(m.app)), Decode(if m.msg.Some? then m.msg.value else []), false)
  {
    hide SplitPri, Match5424, Message, Match3164;
    PrintedPri(m.pri, m.Header().Text());
    Match5424Complete(m.Header());
    SplitPrinted(m.sd, m.msg);
  }

  // ----- the printer of section 4.1 of RFC 3164 -----

  datatype Message3164 = Message3164(pri: nat, month: bytes, gap: bytes, day: bytes, clock: bytes, host: bytes,
                                     tag: bytes, pid: Option<bytes>, content: bytes) {
    predicate Valid() {
      && pri <= 191
      && |month| == 3 && All(Word, month) && (gap == [SP] || gap == [SP, SP]) && 1 <= |day| <= 2 && All(IsDigit, day)
      && Clock(clock) && Token(host)
      && 1 <= |tag| <= 32 && All(TagByte, tag) && (pid.Some? ==> pid.value != [] && All(IsDigit, pid.value))
    }

    function Tag(): TagMatch { TagMatch(tag, pid, [SP], content) }

    function Header(): Header3164 { Header3164(month, gap, day, SP, clock, SP, host, SP, Tag().Text()) }

    function Text(): bytes { PriMatch(DecimalBytes(pri), Header().Text()).Text() }
  }

  lemma {:induction false} Printable3164(m: Message3164)
    ensures m.Valid() <==>
            && m.pri <= 191 && |m.month| == 3 && (forall b :: b in m.month ==> Word(b))
            && (m.gap == [SP] || m.gap == [SP, SP]) && (|m.day| == 1 || |m.day| == 2) && (forall b :: b in m.day ==> IsDigit(b))
            && Clock(m.clock) && IsField(m.host)
            && IsField(m.tag) && |m.tag| <= 32 && (forall b :: b in m.tag ==> b as char != ':' && b as char != '[')
            && (m.pid.Some? ==> m.pid.value != [] && forall b :: b in m.pid.value ==> IsDigit(b))
  {
    hide Clock, Word, IsDigit;
    FieldIsToken(m.host);
  }

  lemma {:induction false} Layout3164(m: Message3164)
    ensures m.Text() == [LT] + DecimalBytes(m.pri) + [GT] + m.month + m.gap + m.day + [SP] + m.clock + [SP] + m.host + [SP] + m.tag
                        + (if m.pid.Some? then [OPEN] + m.pid.value + [CLOSE] else []) + [COLON, SP] + m.content
  {
    hide DecimalBytes;
    var front := [LT] + DecimalBytes(m.pri) + [GT];
    var h, t := m.Header(), m.Tag();
    assert m.Text() == front + h.Text();
    Flat3164(front, m.month, m.gap, m.day, m.clock, m.host, t.Text());
    assert [COLON] + ([SP] + m.content) == [COLON, SP] + m.content;
    FlatTag(front + m.month + m.gap + m.day + [SP] + m.clock + [SP] + m.host + [SP], m.tag, PidText(m.pid), m.content);
  }

  lemma {:induction false} Flat3164(f: bytes, month: bytes, gap: bytes, day: bytes, clock: bytes, host: bytes, t: bytes)
    ensures f + (month + (gap + (day + [SP] + (clock + [SP] + (host + [SP] + t))))) ==
            f + month + gap + day + [SP] + clock + [SP] + host + [SP] + t
  {
    var h1 := host + [SP] + t;
    var c1 := clock + [SP] + h1;
    var d1 := day + [SP] + c1;
    var g := f + month + gap;
    assert f + (month + (gap + d1)) == g + d1;
    assert g + d1 == g + day + [SP] + c1;
    var k := g + day + [SP];
    assert k + c1 == k + clock + [SP] + h1;
    var l := k + clock + [SP];
    assert l + h1 == l + host + [SP] + t;
  }

  lemma {:induction false} FlatTag(f: bytes, tag: bytes, pid: bytes, content: bytes)
    ensures f + (tag + (pid + ([COLON] + ([SP] + content)))) == f + tag + pid + [COLON, SP] + content
  {
    assert [COLON] + ([SP] + content) == [COLON, SP] + content;
  }

  /** Printing by RFC 3164, with `: ` between the tag and the content, and parsing gives
      everything back, whatever the content. */
  lemma {:induction false} RoundTrip3164(m: Message3164)
    requires m.Valid()
    ensures ParseSyslog(m.Text()) ==
            ParsedFields(Some(m.pri / 8), Some(m.pri % 8), Some(Decode(m.host)), Some(Decode(m.tag)),
                         Decode(m.content), false)
  {
    var h, t := m.Header(), m.Tag();
    PrintedPri(m.pri, h.Text());
    Header3164Found(m);
    Parsed3164(m.Text(), Pri(Some(m.pri / 8), Some(m.pri % 8), h.Text()), h, t);
  }

  lemma {:induction false} Parsed3164(raw: bytes, p: Pri, h: Header3164, t: TagMatch)
    requires raw != [] && SplitPri(raw) == p
    requires Match5424(p.rest) == None && Match3164(p.rest) == Some(h) && MatchTag(h.remainder) == Some(t)
    ensures ParseBytes(raw) == RawFields(p.facility, p.severity, Some(h.host), Some(t.name), t.msg, p.facility.None?)
  {
  }

  lemma {:induction false} TagFound(m: Message3164)
    requires m.Valid()
    ensures MatchTag(m.Header().remainder) == Some(m.Tag())
  {
    MatchTagExact(m.Tag().Text(), m.Tag());
  }

  lemma {:induction false} Header3164Valid(m: Message3164)
    requires m.Valid()
    ensures m.Header().Valid()
  {
  }

  lemma {:induction false} Header3164Found(m: Message3164)
    requires m.Valid()
    ensures Match3164(m.Header().Text()) == Some(m.Header())
    ensures Match5424(m.Header().Text()) == None
    ensures MatchTag(m.Header().remainder) == Some(m.Tag())
  {
    TagFound(m);
    Header3164Valid(m);
    Match3164Complete(m.Header());
    HeadersExclusive(m.Header().Text());
  }
}
