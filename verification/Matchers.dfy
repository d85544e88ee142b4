/** The four regular expressions of sylo/parser.py as explicit matchers. Each is shown to
    agree with the language its pattern denotes: it succeeds on exactly the byte strings that
    have the pattern's shape, and returns the only possible groups. */
module Matchers {
  import opened Wrappers
  import opened Utf8

  const SP: byte := 32
  const QUOTE: byte := 34
  const DASH: byte := 45
  const COLON: byte := 58
  const LT: byte := 60
  const EQUALS: byte := 61
  const GT: byte := 62
  const OPEN: byte := 91
  const BACKSLASH: byte := 92
  const CLOSE: byte := 93

  // The classes \s, \S, \d and \w of a bytes pattern.
  predicate Space(b: byte) { b == SP || 9 <= b <= 13 }
  predicate NonSpace(b: byte) { !Space(b) }
  predicate IsDigit(b: byte) { 48 <= b <= 57 }
  predicate Word(b: byte) { IsDigit(b) || 65 <= b <= 90 || 97 <= b <= 122 || b == 95 }
  predicate TagByte(b: byte) { b != COLON && b != OPEN && !Space(b) }

  predicate All(p: byte -> bool, bs: bytes) {
    forall b :: b in bs ==> p(b)
  }

  // ----- maximal runs -----

  function Run(p: byte -> bool, bs: bytes): (n: nat)
    ensures n <= |bs|
    ensures All(p, bs[..n])
    ensures n < |bs| ==> !p(bs[n])
  {
    if bs == [] || !p(bs[0]) then 0 else
      var n := Run(p, bs[1..]);
      assert bs[..1 + n] == [bs[0]] + bs[1..][..n];
      1 + n
  }

  // A run ends where its class ends, so no regex alternative could stop anywhere else.
  lemma {:induction false} RunUnique(p: byte -> bool, run: bytes, rest: bytes)
    requires All(p, run) && (rest == [] || !p(rest[0]))
    ensures Run(p, run + rest) == |run|
  {
    if run == [] {
      assert run + rest == rest;
    } else {
      assert run[0] in run;
      assert (run + rest)[1..] == run[1..] + rest;
      RunUnique(p, run[1..], rest);
    }
  }

  datatype Cut = Cut(run: bytes, sep: byte, rest: bytes) {
    function Text(): bytes { run + [sep] + rest }
  }

  // A non-empty run followed by one more byte.
  function CutRun(p: byte -> bool, bs: bytes): (r: Option<Cut>)
    ensures r.Some? ==> r.value.Text() == bs && r.value.run != [] && All(p, r.value.run) && !p(r.value.sep)
  {
    var n := Run(p, bs);
    if n == 0 || n == |bs| then None
    else
      assert bs == bs[..n] + [bs[n]] + bs[n + 1..];
      Some(Cut(bs[..n], bs[n], bs[n + 1..]))
  }

  lemma {:induction false} CutRunUnique(p: byte -> bool, c: Cut)
    requires c.run != [] && All(p, c.run) && !p(c.sep)
    ensures CutRun(p, c.Text()) == Some(c)
  {
    assert c.Text() == c.run + ([c.sep] + c.rest);
    RunUnique(p, c.run, [c.sep] + c.rest);
    assert c.Text()[|c.run| + 1..] == c.rest;
  }

  // ----- <PRI> -----

  function DecimalValue(digits: bytes): nat
    requires All(IsDigit, digits)
  {
    if digits == [] then 0 else
      var n := |digits| - 1;
      assert digits[n] in digits;
      DecimalValue(digits[..n]) * 10 + (digits[n] - 48)
  }

  function DecimalBytes(n: nat): (d: bytes)
    ensures d != [] && All(IsDigit, d) && DecimalValue(d) == n
    ensures n < 1000 ==> |d| <= 3
    ensures n < 100 ==> |d| <= 2
    ensures n < 10 ==> |d| <= 1
  {
    if n < 10 then
      assert DecimalValue([48 + n]) == DecimalValue([]) * 10 + n by { assert [48 + n][..0] == []; }
      [48 + n]
    else
      var d := DecimalBytes(n / 10) + [48 + n % 10];
      assert d[..|d| - 1] == DecimalBytes(n / 10);
      d
  }

  datatype PriMatch = PriMatch(digits: bytes, rest: bytes) {
    function Text(): bytes { [LT] + digits + [GT] + rest }
    predicate Valid() { 1 <= |digits| <= 3 && All(IsDigit, digits) }
  }

  /** `^<(\d{1,3})>` */
  function MatchPri(raw: bytes): Option<PriMatch> {
    if raw == [] || raw[0] != LT then None
    else match CutRun(IsDigit, raw[1..])
      case Some(c) => if |c.run| <= 3 && c.sep == GT then Some(PriMatch(c.run, c.rest)) else None
      case None => None
  }

  lemma {:induction false} MatchPriExact(raw: bytes, m: PriMatch)
    ensures MatchPri(raw) == Some(m) <==> m.Valid() && raw == m.Text()
  {
    if MatchPri(raw) == Some(m) {
      assert raw == [LT] + raw[1..];
    } else if m.Valid() && raw == m.Text() {
      var c := Cut(m.digits, GT, m.rest);
      assert raw[1..] == c.Text();
      CutRunUnique(IsDigit, c);
    }
  }

  datatype Pri = Pri(facility: Option<nat>, severity: Option<nat>, rest: bytes)

  function SplitPri(raw: bytes): (r: Pri)
    ensures |r.rest| <= |raw| && r.rest == raw[|raw| - |r.rest|..]
    ensures r.facility.Some? <==> r.severity.Some?
    ensures r.facility.Some? ==> r.facility.value <= 23 && r.severity.value <= 7
  {
    match MatchPri(raw)
    case None => Pri(None, None, raw)
    case Some(m) =>
      assert raw == m.Text() && m.Valid() by { MatchPriExact(raw, m); }
      var pri := DecimalValue(m.digits);
      if pri > 191 then Pri(None, None, raw) else Pri(Some(pri / 8), Some(pri % 8), m.rest)
  }

  // By the grammar: a PRI up to 191 in front, or none that counts.
  ghost predicate IsPri(raw: bytes, p: Pri) {
    || (exists m: PriMatch :: PriUpTo191(raw, m) && p == Pri(Some(DecimalValue(m.digits) / 8), Some(DecimalValue(m.digits) % 8), m.rest))
    || ((forall m: PriMatch :: !PriUpTo191(raw, m)) && p == Pri(None, None, raw))
  }

  ghost predicate PriUpTo191(raw: bytes, m: PriMatch) {
    m.Valid() && raw == m.Text() && DecimalValue(m.digits) <= 191
  }

  /** What is split off, and that a PRI beyond 191 stays in front of the rest. */
  lemma {:induction false} SplitPriExactly(raw: bytes, p: Pri)
    ensures SplitPri(raw) == p <==> IsPri(raw, p)
  {
    hide DecimalValue;
    if MatchPri(raw).Some? {
      MatchPriExact(raw, MatchPri(raw).value);
    }
    forall m: PriMatch | PriUpTo191(raw, m) ensures MatchPri(raw) == Some(m) {
      MatchPriExact(raw, m);
    }
    if MatchPri(raw).Some? {
      assert DecimalValue(MatchPri(raw).value.digits) <= 191 <==> PriUpTo191(raw, MatchPri(raw).value);
    }
  }

  /** The bytes with names, as characters. */
  lemma {:induction false} Characters()
    ensures SP as char == ' ' && QUOTE as char == '"' && DASH as char == '-' && COLON as char == ':' && LT as char == '<'
    ensures EQUALS as char == '=' && GT as char == '>' && OPEN as char == '[' && BACKSLASH as char == '\\' && CLOSE as char == ']'
  {
  }

  /** The classes, as characters, and a number of three digits. */
  lemma {:induction false} ClassesListed(b: byte)
    ensures Space(b) <==> b as char == ' ' || b as char == '\t' || b as char == '\n' || b == 11 || b == 12 || b as char == '\r'
    ensures NonSpace(b) <==> !Space(b)
    ensures IsDigit(b) <==> '0' <= b as char <= '9'
    ensures Word(b) <==> 'A' <= b as char <= 'Z' || 'a' <= b as char <= 'z' || '0' <= b as char <= '9' || b as char == '_'
    ensures TagByte(b) <==> NonSpace(b) && b as char != ':' && b as char != '['
    ensures DecimalValue([49, 57, 49]) == 191
  {
    assert DecimalValue([49]) == 1 by { assert [49][..0] == []; }
    assert DecimalValue([49, 57]) == 19 by { assert [49, 57][..1] == [49]; }
    assert [49, 57, 49][..2] == [49, 57];
  }

  // ----- the RFC 5424 header -----

  predicate Token(t: bytes) { t != [] && All(NonSpace, t) }

  // Each field followed by one space, then the rest.
  function Spaced(fields: seq<bytes>, rest: bytes): bytes {
    if fields == [] then rest else fields[0] + [SP] + Spaced(fields[1..], rest)
  }

  datatype Fields = Fields(tokens: seq<bytes>, rest: bytes)

  // `(\S+) `, n times
  function CutFields(bs: bytes, n: nat): Option<Fields> {
    if n == 0 then Some(Fields([], bs))
    else match CutRun(NonSpace, bs)
      case None => None
      case Some(c) =>
        if c.sep != SP then None
        else match CutFields(c.rest, n - 1)
          case None => None
          case Some(f) => Some(Fields([c.run] + f.tokens, f.rest))
  }

  lemma {:induction false} CutFieldsSound(bs: bytes, n: nat)
    requires CutFields(bs, n).Some?
    ensures var f := CutFields(bs, n).value;
            |f.tokens| == n && (forall t :: t in f.tokens ==> Token(t)) && bs == Spaced(f.tokens, f.rest)
  {
    if n > 0 {
      var c := CutRun(NonSpace, bs).value;
      CutFieldsSound(c.rest, n - 1);
      var f := CutFields(bs, n).value;
      assert f.tokens[1..] == CutFields(c.rest, n - 1).value.tokens;
    }
  }

  lemma {:induction false} CutFieldsComplete(tokens: seq<bytes>, rest: bytes)
    requires forall t :: t in tokens ==> Token(t)
    ensures CutFields(Spaced(tokens, rest), |tokens|) == Some(Fields(tokens, rest))
  {
    if tokens != [] {
      var c := Cut(tokens[0], SP, Spaced(tokens[1..], rest));
      assert tokens[0] in tokens;
      CutRunUnique(NonSpace, c);
      CutFieldsComplete(tokens[1..], rest);
      assert tokens == [tokens[0]] + tokens[1..];
    }
  }

  datatype Header5424 = Header5424(timestamp: bytes, host: bytes, app: bytes, procid: bytes, msgid: bytes, remainder: bytes) {
    function Tokens(): seq<bytes> { [timestamp, host, app, procid, msgid] }

    predicate Valid() { forall t :: t in Tokens() ==> Token(t) }

    function Text(): bytes { [49, SP] + Spaced(Tokens(), remainder) }
  }

  /** `^1 (\S+) (\S+) (\S+) (\S+) (\S+) (.*)$`, with DOTALL */
  function Match5424(bs: bytes): Option<Header5424> {
    if |bs| < 2 || bs[0] != 49 || bs[1] != SP then None
    else match CutFields(bs[2..], 5)
      case None => None
      case Some(f) =>
        CutFieldsSound(bs[2..], 5);
        Some(Header5424(f.tokens[0], f.tokens[1], f.tokens[2], f.tokens[3], f.tokens[4], f.rest))
  }

  lemma {:induction false} Match5424Sound(bs: bytes)
    requires Match5424(bs).Some?
    ensures var h := Match5424(bs).value; h.Valid() && bs == h.Text()
  {
    CutFieldsSound(bs[2..], 5);
    var f, h := CutFields(bs[2..], 5).value, Match5424(bs).value;
    assert f.tokens == h.Tokens();
    assert bs == [49, SP] + bs[2..];
  }

  lemma {:induction false} Match5424Complete(h: Header5424)
    requires h.Valid()
    ensures Match5424(h.Text()) == Some(h)
  {
    CutFieldsComplete(h.Tokens(), h.remainder);
    assert h.Text()[2..] == Spaced(h.Tokens(), h.remainder);
  }

  /** The matcher finds a header exactly when the text is one, and then the only one. */
  lemma {:induction false} Match5424Exact(bs: bytes, h: Header5424)
    ensures Match5424(bs) == Some(h) <==> h.Valid() && bs == h.Text()
  {
    if Match5424(bs) == Some(h) {
      Match5424Sound(bs);
    }
    if h.Valid() {
      Match5424Complete(h);
    }
  }

  // ----- the RFC 3164 header -----

  datatype DateCut = DateCut(month: bytes, gap: bytes, day: Cut) {
    predicate Valid() {
      && |month| == 3 && All(Word, month)
      && gap != [] && All(Space, gap)
      && 1 <= |day.run| <= 2 && All(IsDigit, day.run) && Space(day.sep)
    }

    function Text(): bytes { month + (gap + day.Text()) }
  }

  // `\w{3}\s+\d{1,2}\s`
  function CutDate(bs: bytes): Option<DateCut> {
    if |bs| < 3 || !All(Word, bs[..3]) then None else
      var n := Run(Space, bs[3..]);
      if n == 0 then None else
        match CutRun(IsDigit, bs[3..][n..])
        case None => None
        case Some(d) =>
          if |d.run| > 2 || !Space(d.sep) then None else Some(DateCut(bs[..3], bs[3..][..n], d))
  }

  lemma {:induction false} DigitsAreNotSpaces()
    ensures forall b :: IsDigit(b) ==> !Space(b)
  {
  }

  lemma {:induction false} CutDateExact(bs: bytes, c: DateCut)
    ensures CutDate(bs) == Some(c) <==> c.Valid() && bs == c.Text()
  {
    hide Space, Word, IsDigit;
    DigitsAreNotSpaces();
    if CutDate(bs) == Some(c) {
      assert bs[3..] == c.gap + bs[3..][|c.gap|..];
      assert bs == c.month + bs[3..];
    }
    if c.Valid() && bs == c.Text() {
      assert bs[3..] == c.gap + c.day.Text();
      assert c.day.run[0] in c.day.run && c.day.Text()[0] == c.day.run[0];
      RunUnique(Space, c.gap, c.day.Text());
      assert bs[3..][|c.gap|..] == c.day.Text() && bs[3..][..|c.gap|] == c.gap;
      CutRunUnique(IsDigit, c.day);
      assert bs[..3] == c.month;
    }
  }

  // dd:dd:dd
  predicate Clock(c: bytes) {
    && |c| == 8 && c[2] == COLON && c[5] == COLON
    && IsDigit(c[0]) && IsDigit(c[1]) && IsDigit(c[3]) && IsDigit(c[4]) && IsDigit(c[6]) && IsDigit(c[7])
  }

  // `\d{2}:\d{2}:\d{2}\s`
  function CutClock(bs: bytes): Option<Cut> {
    if |bs| < 9 || !Clock(bs[..8]) || !Space(bs[8]) then None else Some(Cut(bs[..8], bs[8], bs[9..]))
  }

  lemma {:induction false} CutClockExact(bs: bytes, c: Cut)
    ensures CutClock(bs) == Some(c) <==> Clock(c.run) && Space(c.sep) && bs == c.Text()
  {
    if CutClock(bs) == Some(c) {
      assert bs == bs[..8] + [bs[8]] + bs[9..];
    }
    if Clock(c.run) && bs == c.Text() {
      assert bs[..8] == c.run && bs[9..] == c.rest;
    }
  }

  datatype Header3164 = Header3164(month: bytes, gap: bytes, day: bytes, sp1: byte, clock: bytes, sp2: byte,
                                   host: bytes, sp3: byte, remainder: bytes) {
    function HostCut(): Cut { Cut(host, sp3, remainder) }
    function ClockCut(): Cut { Cut(clock, sp2, HostCut().Text()) }
    function Date(): DateCut { DateCut(month, gap, Cut(day, sp1, ClockCut().Text())) }

    predicate Valid() {
      Date().Valid() && Clock(clock) && Space(sp2) && Token(host) && Space(sp3)
    }

    function Text(): bytes { Date().Text() }
  }

  /** `^(\w{3}\s+\d{1,2}\s\d{2}:\d{2}:\d{2})\s(\S+)\s(.*)$`, with DOTALL */
  function Match3164(bs: bytes): Option<Header3164> {
    match CutDate(bs)
    case None => None
    case Some(d) => match CutClock(d.day.rest)
      case None => None
      case Some(c) => match CutRun(NonSpace, c.rest)
        case None => None
        case Some(h) =>
          Some(Header3164(d.month, d.gap, d.day.run, d.day.sep, c.run, c.sep, h.run, h.sep, h.rest))
  }

  lemma {:induction false} Match3164Complete(h: Header3164)
    requires h.Valid()
    ensures Match3164(h.Text()) == Some(h)
  {
    CutDateExact(h.Text(), h.Date());
    CutClockExact(h.ClockCut().Text(), h.ClockCut());
    CutRunUnique(NonSpace, h.HostCut());
  }

  lemma {:induction false} Match3164Exact(bs: bytes, h: Header3164)
    ensures Match3164(bs) == Some(h) <==> h.Valid() && bs == h.Text()
  {
    if Match3164(bs) == Some(h) {
      var d := CutDate(bs).value;
      CutDateExact(bs, d);
      CutClockExact(d.day.rest, CutClock(d.day.rest).value);
    }
    if h.Valid() {
      Match3164Complete(h);
    }
  }

  /** The two headers exclude each other, so the order in which they are tried does not matter. */
  lemma {:induction false} HeadersExclusive(bs: bytes)
    ensures Match5424(bs).None? || Match3164(bs).None?
  {
    if CutDate(bs).Some? {
      assert bs[..3][1] in bs[..3];
    }
  }

  // ----- the RFC 3164 tag -----

  datatype TagMatch = TagMatch(name: bytes, pid: Option<bytes>, skipped: bytes, msg: bytes) {
    predicate Valid() {
      && 1 <= |name| <= 32 && All(TagByte, name)
      && (pid.Some? ==> pid.value != [] && All(IsDigit, pid.value))
      && |skipped| <= 1 && All(Space, skipped)
      && (skipped == [] ==> msg == [] || !Space(msg[0]))   // `\s?` takes a space when there is one
    }

    function Text(): bytes {
      name + (PidText(pid) + ([COLON] + (skipped + msg)))
    }
  }

  function PidText(pid: Option<bytes>): bytes {
    if pid.Some? then [OPEN] + pid.value + [CLOSE] else []
  }

  // `:\s?(.*)$`
  function AfterColon(name: bytes, pid: Option<bytes>, bs: bytes): Option<TagMatch> {
    if bs == [] || bs[0] != COLON then None
    else if |bs| > 1 && Space(bs[1]) then Some(TagMatch(name, pid, bs[1..2], bs[2..]))
    else Some(TagMatch(name, pid, [], bs[1..]))
  }

  datatype PidCut = PidCut(pid: Option<bytes>, rest: bytes) {
    predicate Valid() {
      if pid.Some? then pid.value != [] && All(IsDigit, pid.value) else rest == [] || rest[0] != OPEN
    }

    function Text(): bytes { PidText(pid) + rest }
  }

  // `(\[\d+\])?`, where what follows cannot be another `[`
  function CutPid(bs: bytes): Option<PidCut> {
    if bs == [] || bs[0] != OPEN then Some(PidCut(None, bs))
    else match CutRun(IsDigit, bs[1..])
      case None => None
      case Some(d) => if d.sep == CLOSE then Some(PidCut(Some(d.run), d.rest)) else None
  }

  lemma {:induction false} CutPidExact(bs: bytes, c: PidCut)
    ensures CutPid(bs) == Some(c) <==> c.Valid() && bs == c.Text()
  {
    if CutPid(bs) == Some(c) {
      if c.pid.Some? {
        assert bs == [OPEN] + bs[1..];
      } else {
        assert c.Text() == c.rest;
      }
    }
    if c.Valid() && bs == c.Text() {
      if c.pid.Some? {
        assert bs[1..] == Cut(c.pid.value, CLOSE, c.rest).Text();
        CutRunUnique(IsDigit, Cut(c.pid.value, CLOSE, c.rest));
      } else {
        assert c.Text() == c.rest;
      }
    }
  }

  /** `^([^:\[\s]{1,32})(\[\d+\])?:\s?(.*)$`, with DOTALL */
  function MatchTag(bs: bytes): Option<TagMatch> {
    var n := Run(TagByte, bs);
    if n == 0 || n > 32 then None
    else match CutPid(bs[n..])
      case None => None
      case Some(c) => AfterColon(bs[..n], c.pid, c.rest)
  }

  lemma {:induction false} OneByte(p: byte -> bool, b: byte)
    ensures All(p, [b]) <==> p(b)
  {
    assert b in [b];
  }

  lemma {:induction false} NoBytes(p: byte -> bool)
    ensures All(p, [])
  {
  }

  // What `:\s?(.*)$` can match: a greedy `\s?` takes a space when there is one.
  ghost predicate ColonThen(bs: bytes, skipped: bytes, msg: bytes) {
    && bs == [COLON] + (skipped + msg)
    && |skipped| <= 1 && All(Space, skipped)
    && (skipped == [] ==> msg == [] || !Space(msg[0]))
  }

  lemma {:induction false} AfterColonSound(name: bytes, pid: Option<bytes>, bs: bytes)
    requires AfterColon(name, pid, bs).Some?
    ensures var m := AfterColon(name, pid, bs).value;
            m.name == name && m.pid == pid && ColonThen(bs, m.skipped, m.msg)
  {
    hide All;
    assert bs == [bs[0]] + bs[1..];
    NoBytes(Space);
    if |bs| > 1 && Space(bs[1]) {
      OneByte(Space, bs[1]);
      assert bs[1..2] == [bs[1]];
      assert bs[1..] == bs[1..2] + bs[2..];
    }
  }

  lemma {:induction false} AfterColonComplete(name: bytes, pid: Option<bytes>, bs: bytes, skipped: bytes, msg: bytes)
    requires ColonThen(bs, skipped, msg)
    ensures AfterColon(name, pid, bs) == Some(TagMatch(name, pid, skipped, msg))
  {
    hide All;
    if skipped == [] {
      assert bs[1..] == msg;
    } else {
      OneByte(Space, skipped[0]);
      assert skipped == [skipped[0]];
      assert bs[1..2] == skipped && bs[2..] == msg;
    }
  }

  lemma {:induction false} AfterColonExact(name: bytes, pid: Option<bytes>, bs: bytes, m: TagMatch)
    ensures AfterColon(name, pid, bs) == Some(m) <==>
            m.name == name && m.pid == pid && ColonThen(bs, m.skipped, m.msg)
  {
    hide AfterColon, ColonThen;
    if AfterColon(name, pid, bs) == Some(m) {
      AfterColonSound(name, pid, bs);
    }
    if ColonThen(bs, m.skipped, m.msg) {
      AfterColonComplete(name, pid, bs, m.skipped, m.msg);
    }
  }

  lemma {:induction false} MatchTagExact(bs: bytes, m: TagMatch)
    ensures MatchTag(bs) == Some(m) <==> m.Valid() && bs == m.Text()
  {
    hide AfterColon, CutPid;
    var colon := [COLON] + (m.skipped + m.msg);
    var c := PidCut(m.pid, colon);
    if MatchTag(bs) == Some(m) {
      var n := Run(TagByte, bs);
      var pid := CutPid(bs[n..]).value;
      CutPidExact(bs[n..], pid);
      AfterColonExact(bs[..n], pid.pid, pid.rest, m);
      assert bs == bs[..n] + bs[n..];
    }
    if m.Valid() && bs == m.Text() {
      RunUnique(TagByte, m.name, c.Text());
      assert bs == m.name + c.Text();
      assert bs[..|m.name|] == m.name && bs[|m.name|..] == c.Text();
      CutPidExact(c.Text(), c);
      AfterColonExact(m.name, m.pid, colon, m);
    }
  }
}
