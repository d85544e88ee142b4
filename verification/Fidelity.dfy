/** Which payloads parse the same after the trip through the text file: the exact condition under
    which a rebuilt row is the live one. */
module Fidelity {
  import opened Wrappers
  import opened Utf8
  import opened Matchers
  import opened StructuredData
  import opened Parser
  import opened Envelope
  import opened TextForm

  // ----- <PRI> -----

  function NormPri(m: PriMatch): PriMatch { PriMatch(m.digits, Normalize(m.rest)) }

  lemma {:induction false} NormMatchPri(raw: bytes)
    ensures MatchPri(Normalize(raw)) == match MatchPri(raw) case None => None case Some(m) => Some(NormPri(m))
  {
    hide Normalize, Run, CutRun;
    NormNil();
    if raw != [] {
      if Ascii(raw[0]) {
        NormPeel(raw);
        DigitCut(raw[1..]);
      } else {
        NormHead(raw);
      }
    }
  }

  lemma {:induction false} NormSplitPri(raw: bytes)
    ensures SplitPri(Normalize(raw)) == SplitPri(raw).(rest := Normalize(SplitPri(raw).rest))
  {
    hide Normalize, MatchPri, DecimalValue;
    NormMatchPri(raw);
  }

  // ----- the RFC 5424 header -----

  function NormTokens(tokens: seq<bytes>): (r: seq<bytes>)
    ensures |r| == |tokens| && forall i :: 0 <= i < |tokens| ==> r[i] == Normalize(tokens[i])
  {
    seq(|tokens|, i requires 0 <= i < |tokens| => Normalize(tokens[i]))
  }

  lemma {:induction false} SpaceIsStable()
    ensures Stable(NonSpace) && HoldsBeyondAscii(NonSpace) && Stable(TagByte) && HoldsBeyondAscii(TagByte)
    ensures Stable(Space) && FailsBeyondAscii(Space)
  {
  }

  // Without line breaks only a space becomes a space.
  lemma {:induction false} NormCutFields(b: bytes, n: nat)
    ensures CutFields(b, n).Some? ==>
              CutFields(Normalize(b), n) == Some(Fields(NormTokens(CutFields(b, n).value.tokens), Normalize(CutFields(b, n).value.rest)))
    ensures CutFields(b, n).None? && NoBreaks(b) ==> CutFields(Normalize(b), n).None?
    decreases n
  {
    hide Normalize, NonSpace, CutRun, NoBreaks, Stable, HoldsBeyondAscii, NormTokens;
    if n > 0 {
      SpaceIsStable();
      LooseCut(NonSpace, b);
      if CutRun(NonSpace, b).Some? {
        var c := CutRun(NonSpace, b).value;
        CutHasNoBreaks(b, c);
        NormCutFields(c.rest, n - 1);
        if CutFields(c.rest, n - 1).Some? {
          NormTokensCons(c.run, CutFields(c.rest, n - 1).value.tokens);
        }
      }
    }
  }

  lemma {:induction false} CutHasNoBreaks(b: bytes, c: Cut)
    requires NoBreaks(b) ==> b == c.Text()
    ensures NoBreaks(b) ==> NoBreaks(c.rest) && Fix(c.sep) == c.sep
  {
  }

  lemma {:induction false} NormTokensCons(t: bytes, tokens: seq<bytes>)
    ensures NormTokens([t] + tokens) == [Normalize(t)] + NormTokens(tokens)
  {
    hide Normalize;
  }

  function Norm5424(h: Header5424): Header5424 {
    Header5424(Normalize(h.timestamp), Normalize(h.host), Normalize(h.app), Normalize(h.procid), Normalize(h.msgid),
               Normalize(h.remainder))
  }

  // The first two bytes, when the first is no line break and the second no space.
  lemma {:induction false} NormFront(b: bytes)
    ensures |b| >= 2 && b[0] == 49 && b[1] == SP ==> |Normalize(b)| >= 2 && Normalize(b)[..2] == [49, SP] && Normalize(b)[2..] == Normalize(b[2..])
    ensures NoBreaks(b) && !(|b| >= 2 && b[0] == 49 && b[1] == SP) ==>
              var r := Normalize(b); !(|r| >= 2 && r[0] == 49 && r[1] == SP)
  {
    hide Normalize;
    NormNil();
    if b != [] {
      if Ascii(b[0]) {
        NormPeel(b);
        var t := b[1..];
        if t != [] {
          if Ascii(t[0]) {
            NormPeel(t);
            assert t[1..] == b[2..];
          } else {
            NormHead(t);
          }
        }
      } else {
        NormHead(b);
      }
    }
  }

  lemma {:induction false} NormMatch5424(b: bytes)
    ensures Match5424(b).Some? ==> Match5424(Normalize(b)) == Some(Norm5424(Match5424(b).value))
    ensures Match5424(b).None? && NoBreaks(b) ==> Match5424(Normalize(b)).None?
  {
    hide Normalize, CutFields;
    NormFront(b);
    if |b| >= 2 && b[0] == 49 && b[1] == SP {
      NormCutFields(b[2..], 5);
      if CutFields(b[2..], 5).Some? {
        var f := CutFields(b[2..], 5).value;
        CutFieldsSound(b[2..], 5);
        assert NormTokens(f.tokens)[0] == Normalize(f.tokens[0]);
      }
    }
  }

  // ----- the RFC 3164 header -----

  // Whether the first k bytes are of a class.
  lemma {:induction false} RunCovers(p: byte -> bool, b: bytes, k: nat)
    requires k <= |b|
    ensures All(p, b[..k]) <==> Run(p, b) >= k
  {
    var n := Run(p, b);
    if n >= k {
      forall x | x in b[..k] ensures p(x) {
        assert x in b[..n];
      }
    } else {
      assert b[n] in b[..k];
    }
  }

  lemma {:induction false} WordsAreFixed(a: bytes)
    ensures All(Word, a) ==> FixAll(a) == a
    ensures All(IsDigit, a) ==> FixAll(a) == a
  {
    assert forall i :: 0 <= i < |a| ==> a[i] in a;
  }

  // Three word characters in front.
  lemma {:induction false} NormWords(b: bytes)
    ensures |b| >= 3 && All(Word, b[..3]) ==> |Normalize(b)| >= 3 && Normalize(b)[..3] == b[..3] && Normalize(b)[3..] == Normalize(b[3..])
    ensures !(|b| >= 3 && All(Word, b[..3])) ==> !(|Normalize(b)| >= 3 && All(Word, Normalize(b)[..3]))
  {
    hide Normalize, Word, All, Run;
    var r, n := Normalize(b), Run(Word, b);
    WordIsStable();
    TightRun(Word, b);
    if |b| >= 3 {
      RunCovers(Word, b, 3);
      if n >= 3 {
        WordsAreFixed(b[..3]);
        WordsAreAscii(b[..3]);
        NormAscii(b[..3], b[3..]);
        assert b == b[..3] + b[3..];
      }
    }
    if |r| >= 3 {
      RunCovers(Word, r, 3);
    }
  }

  lemma {:induction false} WordIsStable()
    ensures Stable(Word) && FailsBeyondAscii(Word) && Stable(IsDigit) && FailsBeyondAscii(IsDigit)
    ensures Stable(Ascii) && FailsBeyondAscii(Ascii)
  {
  }

  lemma {:induction false} WordsAreAscii(a: bytes)
    ensures All(Word, a) ==> All(Ascii, a)
  {
  }

  function NormDate(d: DateCut): DateCut {
    DateCut(d.month, FixAll(d.gap), Cut(d.day.run, Fix(d.day.sep), Normalize(d.day.rest)))
  }

  lemma {:induction false} NormCutDate(b: bytes)
    ensures CutDate(Normalize(b)) == match CutDate(b) case None => None case Some(d) => Some(NormDate(d))
  {
    hide Normalize, Word, All, Run, CutRun, Space;
    NormWords(b);
    if |b| >= 3 && All(Word, b[..3]) {
      var c := b[3..];
      var n := Run(Space, c);
      SpaceIsStable();
      TightRun(Space, c);
      assert Normalize(c)[..n] == FixAll(c[..n]) && Normalize(c)[n..] == Normalize(c[n..]);
      DigitCut(c[n..]);
      if CutRun(IsDigit, c[n..]).Some? {
        FixedSpace(CutRun(IsDigit, c[n..]).value.sep);
        OnlyAsciiSpaces();
      }
    }
  }

  lemma {:induction false} FixedSpace(x: byte)
    ensures Space(Fix(x)) == Space(x)
  {
  }

  lemma {:induction false} OnlyAsciiSpaces()
    ensures forall x: byte :: Space(x) ==> Ascii(x)
  {
  }

  // A clock in front is there before and after.
  lemma {:induction false} NormClock(b: bytes)
    ensures |b| >= 8 && Clock(b[..8]) ==> |Normalize(b)| >= 8 && Normalize(b)[..8] == b[..8] && Normalize(b)[8..] == Normalize(b[8..])
    ensures !(|b| >= 8 && Clock(b[..8])) ==> !(|Normalize(b)| >= 8 && Clock(Normalize(b)[..8]))
  {
    hide Normalize, Clock;
    if |b| >= 8 && Clock(b[..8]) {
      ClockBytes(b[..8]);
      NormAscii(b[..8], b[8..]);
      assert b == b[..8] + b[8..];
    }
    if |Normalize(b)| >= 8 && Clock(Normalize(b)[..8]) {
      ClockWas(b);
    }
  }

  lemma {:induction false} ClockWas(b: bytes)
    requires |Normalize(b)| >= 8 && Clock(Normalize(b)[..8])
    ensures |b| >= 8 && b[..8] == Normalize(b)[..8]
  {
    hide Normalize, Run, Clock, All;
    var r, n := Normalize(b), Run(Ascii, b);
    WordIsStable();
    TightRun(Ascii, b);
    ClockBytes(r[..8]);
    RunCovers(Ascii, r, 8);
    assert r[..n] == FixAll(b[..n]);
    forall i | 0 <= i < 8 ensures b[i] == r[i] {
      assert r[i] == FixAll(b[..n])[i] == Fix(b[i]);
      assert r[..8][i] != SP;
    }
  }

  lemma {:induction false} ClockBytes(c: bytes)
    requires Clock(c)
    ensures All(Ascii, c) && FixAll(c) == c && forall i :: 0 <= i < 8 ==> c[i] != SP
  {
    forall i | 0 <= i < 8 ensures Ascii(c[i]) && Fix(c[i]) == c[i] && c[i] != SP {
      assert i == 0 || i == 1 || i == 2 || i == 3 || i == 4 || i == 5 || i == 6 || i == 7;
    }
  }

  lemma {:induction false} NormCutClock(b: bytes)
    ensures CutClock(Normalize(b)) ==
            match CutClock(b) case None => None case Some(c) => Some(Cut(c.run, Fix(c.sep), Normalize(c.rest)))
  {
    hide Normalize, Clock, Space;
    NormClock(b);
    var r := Normalize(b);
    if |b| >= 8 && Clock(b[..8]) {
      var t := b[8..];
      NormNil();
      if t != [] {
        FixedSpace(t[0]);
        OnlyAsciiSpaces();
        if Ascii(t[0]) {
          NormPeel(t);
          assert t[1..] == b[9..] && r[8] == r[8..][0] && r[9..] == r[8..][1..];
        } else {
          NormHead(t);
          assert r[8] == r[8..][0];
        }
      }
    }
  }

  function Norm3164(h: Header3164): Header3164 {
    Header3164(h.month, FixAll(h.gap), h.day, Fix(h.sp1), h.clock, Fix(h.sp2), Normalize(h.host), Fix(h.sp3), Normalize(h.remainder))
  }

  /** The RFC 3164 header is found after normalising exactly when it was before, in the same places. */
  lemma {:induction false} NormMatch3164(b: bytes)
    ensures Match3164(Normalize(b)) == match Match3164(b) case None => None case Some(h) => Some(Norm3164(h))
  {
    hide Normalize, CutDate, CutClock, CutRun, Space;
    NormCutDate(b);
    if CutDate(b).Some? {
      var d := CutDate(b).value;
      NormCutClock(d.day.rest);
      if CutClock(d.day.rest).Some? {
        SpaceIsStable();
        LooseCut(NonSpace, CutClock(d.day.rest).value.rest);
      }
    }
  }

  // ----- the tag -----

  function NormTag(t: TagMatch): TagMatch { TagMatch(Normalize(t.name), t.pid, FixAll(t.skipped), Normalize(t.msg)) }

  function NormPid(c: PidCut): PidCut { PidCut(c.pid, Normalize(c.rest)) }

  lemma {:induction false} NormCutPid(b: bytes)
    ensures CutPid(Normalize(b)) == match CutPid(b) case None => None case Some(c) => Some(NormPid(c))
  {
    hide Normalize, CutRun;
    NormNil();
    if b != [] {
      if Ascii(b[0]) {
        NormPeel(b);
        DigitCut(b[1..]);
      } else {
        NormHead(b);
      }
    }
  }

  lemma {:induction false} NormAfterColon(name: bytes, pid: Option<bytes>, b: bytes)
    ensures AfterColon(Normalize(name), pid, Normalize(b)) ==
            match AfterColon(name, pid, b) case None => None case Some(t) => Some(NormTag(t))
  {
    hide Normalize, Space;
    NormNil();
    if b != [] {
      if Ascii(b[0]) {
        NormPeel(b);
        var t := b[1..];
        if t != [] {
          FixedSpace(t[0]);
          OnlyAsciiSpaces();
          if Ascii(t[0]) {
            NormPeel(t);
            assert t[1..] == b[2..] && b[1..2] == [t[0]] && FixAll(b[1..2]) == [Fix(t[0])];
            var r := Normalize(b);
            assert r[1..2] == [Fix(t[0])] && r[2..] == Normalize(b[2..]);
          } else {
            NormHead(t);
          }
        }
      } else {
        NormHead(b);
      }
    }
  }

  /** A tag is found after normalising exactly when it was before and still is at most 32 bytes long. */
  lemma {:induction false} NormMatchTag(b: bytes)
    ensures MatchTag(Normalize(b)) ==
            match MatchTag(b)
            case None => None
            case Some(t) => if |Normalize(t.name)| <= 32 then Some(NormTag(t)) else None
  {
    hide Normalize, CutPid, AfterColon, Run, TagByte;
    var n := Run(TagByte, b);
    SpaceIsStable();
    LooseRun(TagByte, b);
    NormNil();
    assert b[..0] == [];
    var m := |Normalize(b[..n])|;
    assert Normalize(b)[..m] == Normalize(b[..n]) && Normalize(b)[m..] == Normalize(b[n..]);
    NormCutPid(b[n..]);
    if CutPid(b[n..]).Some? {
      NormAfterColon(b[..n], CutPid(b[n..]).value.pid, CutPid(b[n..]).value.rest);
      AfterColonName(b[..n], CutPid(b[n..]).value.pid, CutPid(b[n..]).value.rest);
    }
  }

  lemma {:induction false} AfterColonName(name: bytes, pid: Option<bytes>, b: bytes)
    ensures AfterColon(name, pid, b).Some? ==> AfterColon(name, pid, b).value.name == name
  {
  }

  // ----- STRUCTURED-DATA -----

  // Bytes beyond ASCII neither open nor close anything.
  lemma {:induction false} SkipBeyondAscii(a: bytes, c: bytes, inQuotes: bool)
    requires forall x :: x in a ==> !Ascii(x)
    ensures AfterElement(a + c, inQuotes) == AfterElement(c, inQuotes)
  {
    if a == [] {
      assert a + c == c;
    } else {
      assert a[0] in a;
      assert (a + c)[1..] == a[1..] + c;
      SkipBeyondAscii(a[1..], c, inQuotes);
    }
  }

  predicate Beyond(x: byte) { !Ascii(x) }

  // The bytes beyond ASCII in front, and the rest.
  lemma {:induction false} BeyondAsciiFront(b: bytes) returns (n: nat)
    requires b != [] && !Ascii(b[0])
    ensures 0 < n <= |b|
    ensures forall inQuotes :: AfterElement(b, inQuotes) == AfterElement(b[n..], inQuotes)
    ensures forall inQuotes :: AfterElement(Normalize(b), inQuotes) == AfterElement(Normalize(b[n..]), inQuotes)
  {
    hide Normalize, AfterElement;
    n := Run(Beyond, b);
    LooseRun(Beyond, b);
    NormAll(Beyond, b[..n]);
    assert b == b[..n] + b[n..];
    forall inQuotes
      ensures AfterElement(b, inQuotes) == AfterElement(b[n..], inQuotes)
      ensures AfterElement(Normalize(b), inQuotes) == AfterElement(Normalize(b[n..]), inQuotes)
    {
      SkipBeyondAscii(b[..n], b[n..], inQuotes);
      SkipBeyondAscii(Normalize(b[..n]), Normalize(b[n..]), inQuotes);
    }
  }

  function NormRest(r: Option<bytes>): Option<bytes> {
    match r case None => None case Some(b) => Some(Normalize(b))
  }

  // An escaped byte beyond ASCII is skipped like any other.
  lemma {:induction false} EscapedBeyondAscii(b: bytes)
    requires |b| >= 2 && b[0] == BACKSLASH && !Ascii(b[1])
    ensures AfterElement(b, true) == AfterElement(b[1..], true)
  {
    assert b[1..][1..] == b[2..];
  }

  /** Elements end in the same places, whatever bytes were replaced inside them. */
  lemma {:induction false} NormAfterElement(b: bytes, inQuotes: bool)
    ensures AfterElement(Normalize(b), inQuotes) == NormRest(AfterElement(b, inQuotes))
    decreases |b|
  {
    hide Normalize;
    NormNil();
    if b != [] {
      if !Ascii(b[0]) {
        var n := BeyondAsciiFront(b);
        NormAfterElement(b[n..], inQuotes);
      } else {
        NormPeel(b);
        if inQuotes && b[0] == BACKSLASH {
          NormEscape(b);
          if |b| > 1 {
            NormAfterElement(if Ascii(b[1]) then b[2..] else b[1..], true);
          }
        } else {
          NormAfterElement(b[1..], if inQuotes then b[0] != QUOTE else b[0] == QUOTE);
        }
      }
    }
  }

  lemma {:induction false} NormEscape(b: bytes)
    requires b != [] && b[0] == BACKSLASH
    ensures |b| == 1 ==> AfterElement(b, true).None? && AfterElement(Normalize(b), true).None?
    ensures |b| > 1 ==>
              var rest := if Ascii(b[1]) then b[2..] else b[1..];
              AfterElement(b, true) == AfterElement(rest, true) && AfterElement(Normalize(b), true) == AfterElement(Normalize(rest), true)
  {
    hide Normalize;
    NormNil();
    NormPeel(b);
    var t := b[1..];
    if t != [] {
      if Ascii(t[0]) {
        NormPeel(t);
        assert t[1..] == b[2..];
        assert Normalize(b)[2..] == Normalize(t)[1..];
      } else {
        NormHead(t);
        EscapedBeyondAscii(b);
        EscapedBeyondAscii(Normalize(b));
      }
    }
  }

  lemma {:induction false} NormAfterElements(b: bytes)
    ensures AfterElements(Normalize(b)) == NormRest(AfterElements(b))
    decreases |b|
  {
    hide Normalize, AfterElement;
    NormNil();
    if b != [] {
      if Ascii(b[0]) {
        NormPeel(b);
        if b[0] == OPEN {
          NormAfterElement(b[1..], false);
          match AfterElement(b[1..], false)
          case None =>
          case Some(rest) => NormAfterElements(rest);
        }
      } else {
        NormHead(b);
      }
    }
  }

  lemma {:induction false} NormDropSpace(b: bytes)
    requires NoBreaks(DropSpace(b))
    ensures DropSpace(Normalize(b)) == Normalize(DropSpace(b))
  {
    hide Normalize;
    NormNil();
    if b != [] {
      if Ascii(b[0]) {
        NormPeel(b);
      } else {
        NormHead(b);
      }
    }
  }

  /** A message without line breaks is found behind the structured data again. */
  lemma {:induction false} NormMessage(b: bytes)
    requires NoBreaks(Message(b))
    ensures Message(Normalize(b)) == Normalize(Message(b))
  {
    hide Normalize, AfterElements, DropSpace;
    NormNil();
    if b != [] {
      if Ascii(b[0]) {
        NormPeel(b);
      } else {
        NormHead(b);
      }
      if b[0] == DASH {
        NormDropSpace(b[1..]);
      } else if b[0] == OPEN {
        NormAfterElements(b);
        if AfterElements(b).Some? {
          NormDropSpace(AfterElements(b).value);
        }
      }
    }
  }

  // ----- the whole parser -----

  function NormFields(f: RawFields): RawFields {
    RawFields(f.facility, f.severity, NormRest(f.host), NormRest(f.tag), Normalize(f.message), f.malformed)
  }

  /** The tag of an RFC 3164 header, as text, still is within the limit the pattern sets for its bytes. */
  predicate TagFits(raw: bytes) {
    match Match3164(SplitPri(raw).rest)
    case None => true
    case Some(h) => match MatchTag(h.remainder)
      case None => true
      case Some(t) => |Encode(Decode(t.name))| <= 32
  }

  // What can be checked of a payload: its message is one line, and its tag fits.
  predicate KeepsItsFields(raw: bytes) {
    var message := ParseSyslog(raw).message;
    '\r' !in message && '\n' !in message && TagFits(raw)
  }

  lemma {:induction false} TokenHasNoBreaks(t: bytes)
    requires All(NonSpace, t)
    ensures NoBreaks(t)
  {
  }

  lemma {:induction false} NormIsDash(t: bytes)
    ensures Normalize(t) == [DASH] <==> t == [DASH]
  {
    hide Normalize;
    NormNil();
    if t == [DASH] {
      NormPeel(t);
      assert t[1..] == [];
    } else if Normalize(t) == [DASH] {
      NormGrows(t);
      if Ascii(t[0]) {
        NormPeel(t);
      } else {
        NormHead(t);
      }
    }
  }

  lemma {:induction false} NormDashIsNone(t: bytes)
    ensures DashIsNone(Normalize(t)) == NormRest(DashIsNone(t))
  {
    NormIsDash(t);
  }

  lemma {:induction false} NormEmpty(raw: bytes)
    ensures Normalize(raw) == [] <==> raw == []
  {
    NormNil();
    NormGrows(raw);
  }

  // The three ways a payload parses.
  lemma {:induction false} Parsed5424(raw: bytes, h: Header5424)
    requires raw != [] && Match5424(SplitPri(raw).rest) == Some(h)
    ensures ParseBytes(raw) == RawFields(SplitPri(raw).facility, SplitPri(raw).severity, DashIsNone(h.host), DashIsNone(h.app),
                                         Message(h.remainder), SplitPri(raw).facility.None?)
  {
    hide SplitPri, Match5424, Message;
  }

  lemma {:induction false} ParsedPlain(raw: bytes)
    requires raw != [] && Match5424(SplitPri(raw).rest) == None && Match3164(SplitPri(raw).rest) == None
    ensures ParseBytes(raw) == RawFields(SplitPri(raw).facility, SplitPri(raw).severity, None, None, SplitPri(raw).rest, true)
  {
    hide SplitPri, Match5424, Match3164;
  }

  lemma {:induction false} ParsedHeader3164(raw: bytes, h: Header3164)
    requires raw != [] && Match5424(SplitPri(raw).rest) == None && Match3164(SplitPri(raw).rest) == Some(h)
    ensures var p := SplitPri(raw);
            ParseBytes(raw) ==
            match MatchTag(h.remainder)
            case Some(t) => RawFields(p.facility, p.severity, Some(h.host), Some(t.name), t.msg, p.facility.None?)
            case None => RawFields(p.facility, p.severity, Some(h.host), None, h.remainder, p.facility.None?)
  {
    hide SplitPri, Match5424, Match3164, MatchTag;
  }

  lemma {:induction false} Norm5424Fields(raw: bytes)
    requires raw != [] && Match5424(SplitPri(raw).rest).Some? && NoBreaks(ParseBytes(raw).message)
    ensures ParseBytes(Normalize(raw)) == NormFields(ParseBytes(raw))
  {
    hide Normalize, SplitPri, Match5424, Message, ParseBytes, DashIsNone;
    var h := Match5424(SplitPri(raw).rest).value;
    NormEmpty(raw);
    NormSplitPri(raw);
    NormMatch5424(SplitPri(raw).rest);
    Parsed5424(raw, h);
    Parsed5424(Normalize(raw), Norm5424(h));
    NormDashIsNone(h.host);
    NormDashIsNone(h.app);
    NormMessage(h.remainder);
  }

  lemma {:induction false} NormPlainFields(raw: bytes)
    requires raw != [] && Match5424(SplitPri(raw).rest) == None && Match3164(SplitPri(raw).rest) == None
    requires NoBreaks(ParseBytes(raw).message)
    ensures ParseBytes(Normalize(raw)) == NormFields(ParseBytes(raw))
  {
    hide Normalize, SplitPri, Match5424, Match3164, ParseBytes;
    var rest := SplitPri(raw).rest;
    NormEmpty(raw);
    NormSplitPri(raw);
    ParsedPlain(raw);
    NormMatch5424(rest);
    NormMatch3164(rest);
    ParsedPlain(Normalize(raw));
  }

  // No RFC 5424 header turns up where there is an RFC 3164 one.
  lemma {:induction false} NormHeader3164(raw: bytes, h: Header3164)
    requires Match3164(SplitPri(raw).rest) == Some(h)
    ensures var rest := SplitPri(Normalize(raw)).rest; Match5424(rest) == None && Match3164(rest) == Some(Norm3164(h))
    ensures Match5424(SplitPri(raw).rest) == None
  {
    hide Normalize, SplitPri, Match5424, Match3164;
    NormSplitPri(raw);
    NormMatch3164(SplitPri(raw).rest);
    HeadersExclusive(SplitPri(raw).rest);
    HeadersExclusive(Normalize(SplitPri(raw).rest));
  }

  lemma {:induction false} Norm3164Fields(raw: bytes, h: Header3164)
    requires raw != [] && Match3164(SplitPri(raw).rest) == Some(h) && NoBreaks(ParseBytes(raw).message)
    requires MatchTag(h.remainder).Some? ==> |Normalize(MatchTag(h.remainder).value.name)| <= 32
    ensures ParseBytes(Normalize(raw)) == NormFields(ParseBytes(raw))
  {
    hide Normalize, SplitPri, Match5424, Match3164, MatchTag, ParseBytes;
    NormEmpty(raw);
    NormSplitPri(raw);
    NormHeader3164(raw, h);
    ParsedHeader3164(raw, h);
    ParsedHeader3164(Normalize(raw), Norm3164(h));
    NormMatchTag(h.remainder);
  }

  lemma {:induction false} HeaderHasNoBreaks(h: Header5424)
    requires h.Valid()
    ensures NoBreaks(h.host) && NoBreaks(h.app)
  {
    hide NonSpace, NoBreaks;
    assert h.host in h.Tokens() && h.app in h.Tokens() by { assert h.Tokens()[1] == h.host && h.Tokens()[2] == h.app; }
    TokenHasNoBreaks(h.host);
    TokenHasNoBreaks(h.app);
  }

  ghost predicate OneLineFields(f: RawFields) {
    (f.host.Some? ==> NoBreaks(f.host.value)) && (f.tag.Some? ==> NoBreaks(f.tag.value))
  }

  lemma {:induction false} Fields3164HaveNoBreaks(raw: bytes, h: Header3164)
    requires raw != [] && Match3164(SplitPri(raw).rest) == Some(h)
    ensures OneLineFields(ParseBytes(raw))
  {
    hide SplitPri, Match5424, Match3164, MatchTag, ParseBytes, NonSpace, TagByte, NoBreaks, All, Space, Clock;
    HeadersExclusive(SplitPri(raw).rest);
    ParsedHeader3164(raw, h);
    Match3164Exact(SplitPri(raw).rest, h);
    TokenHasNoBreaks(h.host);
    if MatchTag(h.remainder).Some? {
      MatchTagExact(h.remainder, MatchTag(h.remainder).value);
      TagHasNoBreaks(MatchTag(h.remainder).value.name);
    }
  }

  // Host and tag never hold a line break.
  lemma {:induction false} FieldsHaveNoBreaks(raw: bytes)
    ensures OneLineFields(ParseBytes(raw))
  {
    if raw != [] {
      hide SplitPri, Match5424, Match3164, ParseBytes, NoBreaks;
      var rest := SplitPri(raw).rest;
      if Match5424(rest).Some? {
        var h := Match5424(rest).value;
        Match5424Exact(rest, h);
        HeaderHasNoBreaks(h);
        Parsed5424(raw, h);
      } else if Match3164(rest).Some? {
        Fields3164HaveNoBreaks(raw, Match3164(rest).value);
      } else {
        ParsedPlain(raw);
      }
    }
  }

  lemma {:induction false} TagHasNoBreaks(t: bytes)
    requires All(TagByte, t)
    ensures NoBreaks(t)
  {
  }

  // A message has a line break as text exactly when it has one as bytes.
  lemma {:induction false} TextBreaks(b: bytes)
    ensures NoBreaks(b) <==> '\r' !in Decode(b) && '\n' !in Decode(b)
  {
    hide Decode;
    if 10 in b {
      BreakIsDecoded(b, 10);
    }
    if 13 in b {
      BreakIsDecoded(b, 13);
    }
    if '\n' in Decode(b) {
      DecodedAscii(b, 10);
    }
    if '\r' in Decode(b) {
      DecodedAscii(b, 13);
    }
  }

  lemma {:induction false} BreakIsDecoded(b: bytes, x: byte)
    requires x in b && Ascii(x)
    ensures x as char in Decode(b)
  {
    hide Decode;
    var i :| 0 <= i < |b| && b[i] == x;
    assert b == b[..i] + [x] + b[i + 1..];
    DecodeSplitsAtAscii(b[..i], x, b[i + 1..]);
  }

  // The message of a normalised payload is a tail of it, so it has no line break.
  lemma {:induction false} NormMessageHasNoBreaks(raw: bytes)
    ensures NoBreaks(ParseBytes(Normalize(raw)).message)
  {
    hide Normalize, ParseBytes;
    var r := Normalize(raw);
    MessageIsPayloadSuffix(r);
    if 10 in r {
      NormBytes(raw, 10);
    }
    if 13 in r {
      NormBytes(raw, 13);
    }
  }

  lemma {:induction false} DecodedField(field: Option<bytes>)
    requires field.Some? ==> NoBreaks(field.value)
    ensures DecodeField(NormRest(field)) == DecodeField(field)
  {
    hide Decode, Normalize;
    if field.Some? {
      NormDecodes(field.value);
    }
  }

  lemma {:induction false} SameFieldsSameText(raw: bytes)
    requires ParseBytes(Normalize(raw)) == NormFields(ParseBytes(raw)) && NoBreaks(ParseBytes(raw).message)
    ensures ParseSyslog(Normalize(raw)) == ParseSyslog(raw)
  {
    hide ParseBytes, Normalize, Decode, DecodeField, NormRest;
    FieldsHaveNoBreaks(raw);
    DecodedField(ParseBytes(raw).host);
    DecodedField(ParseBytes(raw).tag);
    NormDecodes(ParseBytes(raw).message);
  }

  lemma {:induction false} TagLength(raw: bytes, h: Header3164)
    requires Match3164(SplitPri(raw).rest) == Some(h)
    ensures TagFits(raw) <==> (MatchTag(h.remainder).Some? ==> |Normalize(MatchTag(h.remainder).value.name)| <= 32)
  {
    hide SplitPri, Match3164, MatchTag, Normalize, Decode, Encode;
    if MatchTag(h.remainder).Some? {
      var t := MatchTag(h.remainder).value;
      MatchTagExact(h.remainder, t);
      TagHasNoBreaks(t.name);
      NormDecodes(t.name);
    }
  }

  lemma {:induction false} KeptFieldsAreTheSame(raw: bytes)
    requires NoBreaks(ParseBytes(raw).message) && TagFits(raw)
    ensures ParseSyslog(Normalize(raw)) == ParseSyslog(raw)
  {
    hide ParseBytes, SplitPri, Match3164, Match5424, Normalize, TagFits, ParseSyslog, NoBreaks;
    var rest := SplitPri(raw).rest;
    if raw == [] {
      NormNil();
    } else {
      if Match5424(rest).Some? {
        Norm5424Fields(raw);
      } else if Match3164(rest).Some? {
        TagLength(raw, Match3164(rest).value);
        Norm3164Fields(raw, Match3164(rest).value);
      } else {
        NormPlainFields(raw);
      }
      SameFieldsSameText(raw);
    }
  }

  // A tag that outgrew the limit is no tag any more.
  lemma {:induction false} OutgrownTag(raw: bytes)
    requires !TagFits(raw)
    ensures ParseBytes(raw).tag.Some? && ParseBytes(Normalize(raw)).tag.None?
  {
    hide ParseBytes, SplitPri, Match3164, Match5424, MatchTag, Normalize, Decode, Encode;
    var h := Match3164(SplitPri(raw).rest).value;
    TagLength(raw, h);
    NormEmpty(raw);
    NonEmpty(raw, h);
    NormHeader3164(raw, h);
    ParsedHeader3164(raw, h);
    ParsedHeader3164(Normalize(raw), Norm3164(h));
    NormMatchTag(h.remainder);
  }

  lemma {:induction false} NonEmpty(raw: bytes, h: Header3164)
    requires Match3164(SplitPri(raw).rest) == Some(h)
    ensures raw != []
  {
    Match3164Exact(SplitPri(raw).rest, h);
  }

  /** A payload parses the same after its trip through the text file if and only if its message has
      no line break and its RFC 3164 tag, if any, is no longer than 32 bytes as text. */
  lemma {:induction false} ParsesTheSameExactly(raw: bytes)
    ensures ParseSyslog(Normalize(raw)) == ParseSyslog(raw) <==> KeepsItsFields(raw)
  {
    hide ParseBytes, Normalize, Decode, TagFits, NoBreaks;
    TextBreaks(ParseBytes(raw).message);
    if NoBreaks(ParseBytes(raw).message) {
      if TagFits(raw) {
        KeptFieldsAreTheSame(raw);
      } else {
        OutgrownTag(raw);
      }
    } else {
      NormMessageHasNoBreaks(raw);
      TextBreaks(ParseBytes(Normalize(raw)).message);
    }
  }
}
