/** What the trip through the text file does to a payload, byte by byte: ill-formed bytes are
    replaced, line breaks become spaces, and everything in ASCII stays where it is. */
module TextForm {
  import opened Wrappers
  import opened Utf8
  import opened Matchers
  import opened Envelope

  // What becomes of an ASCII byte.
  function Fix(x: byte): byte { if x == 10 || x == 13 then SP else x }

  function FixAll(a: bytes): (r: bytes)
    ensures |r| == |a| && forall i :: 0 <= i < |a| ==> r[i] == Fix(a[i])
  {
    seq(|a|, i requires 0 <= i < |a| => Fix(a[i]))
  }

  predicate NoBreaks(b: bytes) { 10 !in b && 13 !in b }
  predicate Ascii(x: byte) { x < 0x80 }

  // ----- normalising piece by piece -----

  lemma {:induction false} NormNil()
    ensures Normalize([]) == []
  {
  }

  lemma {:induction false} NormSplit(a: bytes, x: byte, c: bytes)
    requires Ascii(x)
    ensures Normalize(a + [x] + c) == Normalize(a) + [Fix(x)] + Normalize(c)
  {
    hide Decode, EncodeChar;
    var s, t := Decode(a), Decode(c);
    var y := OneLine([x as char]);
    DecodeSplitsAtAscii(a, x, c);
    assert OneLine(s + [x as char] + t) == OneLine(s) + y + OneLine(t);
    EncodeConcat(OneLine(s) + y, OneLine(t));
    EncodeConcat(OneLine(s), y);
    AsciiCharEncodes(Fix(x));
    assert y == [Fix(x) as char];
  }

  lemma {:induction false} AsciiCharEncodes(x: byte)
    requires Ascii(x)
    ensures Encode([x as char]) == [x]
  {
    assert Encode([x as char][1..]) == [];
  }

  lemma {:induction false} NormPeel(b: bytes)
    requires b != [] && Ascii(b[0])
    ensures Normalize(b) == [Fix(b[0])] + Normalize(b[1..])
  {
    hide Normalize;
    NormNil();
    NormSplit([], b[0], b[1..]);
    assert b == [] + [b[0]] + b[1..];
  }

  lemma {:induction false} DecodedHead(b: bytes)
    requires b != [] && !Ascii(b[0])
    ensures Decode(b) != [] && Decode(b)[0] as int >= 0x80
  {
  }

  lemma {:induction false} NormHead(b: bytes)
    requires b != [] && !Ascii(b[0])
    ensures Normalize(b) != [] && !Ascii(Normalize(b)[0])
  {
    hide Decode;
    DecodedHead(b);
    var s := OneLine(Decode(b));
    assert s[0] == Decode(b)[0];
    assert !Ascii(EncodeChar(s[0])[0]);
  }

  lemma {:induction false} NormBytes(a: bytes, y: byte)
    requires y in Normalize(a) && Ascii(y)
    ensures y != 10 && y != 13 && exists x :: x in a && Ascii(x) && Fix(x) == y
  {
    hide Decode, Encode;
    var s := Decode(a);
    EncodedAscii(OneLine(s), y);
    var i :| 0 <= i < |s| && OneLine(s)[i] == y as char;
    var x := s[i] as int;
    assert x < 0x80 && Fix(x) == y;
    DecodedAscii(a, x);
  }

  lemma {:induction false} EncodeLength(s: string)
    ensures |Encode(OneLine(s))| == |Encode(s)|
  {
    if s != [] {
      assert OneLine(s)[1..] == OneLine(s[1..]);
      EncodeLength(s[1..]);
    }
  }

  lemma {:induction false} ReplacementIsLong(b: bytes)
    requires b != []
    ensures |EncodeChar(DecodeStep(b).c)| >= DecodeStep(b).used
  {
    var r := DecodeStep(b);
    if r.c == REPLACEMENT {
      assert |EncodeChar(r.c)| == 3;
      assert r.used == 4 ==> r.c as int >= 0x10000;
    }
  }

  lemma {:induction false} DecodedIsNotShorter(a: bytes)
    ensures |Encode(Decode(a))| >= |a|
    decreases |a|
  {
    if a != [] {
      hide DecodeStep, EncodeChar;
      var r := DecodeStep(a);
      ReplacementIsLong(a);
      DecodedIsNotShorter(a[r.used..]);
      assert Decode(a)[1..] == Decode(a[r.used..]);
    }
  }

  /** The text of a payload is never shorter than the payload. */
  lemma {:induction false} NormGrows(a: bytes)
    ensures |Normalize(a)| >= |a|
  {
    DecodedIsNotShorter(a);
    EncodeLength(Decode(a));
  }

  lemma {:induction false} NormDecodes(a: bytes)
    requires NoBreaks(a)
    ensures Decode(Normalize(a)) == Decode(a)
    ensures Encode(Decode(a)) == Normalize(a)
  {
    hide Decode, Encode;
    if '\n' in Decode(a) {
      DecodedAscii(a, 10);
    }
    if '\r' in Decode(a) {
      DecodedAscii(a, 13);
    }
    DecodeEncode(Decode(a));
  }

  lemma {:induction false} NormAscii(a: bytes, c: bytes)
    requires All(Ascii, a)
    ensures Normalize(a + c) == FixAll(a) + Normalize(c)
  {
    hide Normalize;
    if a == [] {
      assert a + c == c;
    } else {
      assert a[0] in a;
      NormPeel(a + c);
      assert (a + c)[1..] == a[1..] + c;
      NormAscii(a[1..], c);
      assert FixAll(a) == [Fix(a[0])] + FixAll(a[1..]);
    }
  }

  // ----- runs -----

  // A class that does not tell a line break from a space.
  ghost predicate Stable(p: byte -> bool) {
    forall x: byte :: Ascii(x) ==> p(Fix(x)) == p(x)
  }

  ghost predicate HoldsBeyondAscii(p: byte -> bool) { forall x: byte :: !Ascii(x) ==> p(x) }
  ghost predicate FailsBeyondAscii(p: byte -> bool) { forall x: byte :: !Ascii(x) ==> !p(x) }

  lemma {:induction false} NormAll(p: byte -> bool, a: bytes)
    requires Stable(p) && HoldsBeyondAscii(p) && All(p, a)
    ensures All(p, Normalize(a))
  {
    hide Normalize;
    forall y | y in Normalize(a) ensures p(y) {
      if Ascii(y) {
        NormBytes(a, y);
      }
    }
  }

  // A run that takes all bytes beyond ASCII ends at an ASCII byte, where normalising splits.
  lemma {:induction false} LooseRun(p: byte -> bool, b: bytes)
    requires Stable(p) && HoldsBeyondAscii(p)
    ensures var n := Run(p, b);
            && Normalize(b) == Normalize(b[..n]) + Normalize(b[n..])
            && Run(p, Normalize(b)) == |Normalize(b[..n])| >= n
            && (n < |b| ==> Ascii(b[n]) && Normalize(b[n..]) == [Fix(b[n])] + Normalize(b[n + 1..]))
  {
    hide Normalize;
    var n := Run(p, b);
    NormAll(p, b[..n]);
    NormGrows(b[..n]);
    if n == |b| {
      NormNil();
      assert b[..n] == b && b[n..] == [];
      assert Normalize(b) + [] == Normalize(b);
      RunUnique(p, Normalize(b), []);
    } else {
      NormPeel(b[n..]);
      NormSplit(b[..n], b[n], b[n + 1..]);
      assert b == b[..n] + [b[n]] + b[n + 1..] && b[n..][1..] == b[n + 1..];
      assert Normalize(b) == Normalize(b[..n]) + Normalize(b[n..]);
      RunUnique(p, Normalize(b[..n]), Normalize(b[n..]));
    }
  }

  // A run of ASCII bytes stays as long as it is.
  lemma {:induction false} TightRun(p: byte -> bool, b: bytes)
    requires Stable(p) && FailsBeyondAscii(p)
    ensures var n := Run(p, b);
            Run(p, Normalize(b)) == n && Normalize(b) == FixAll(b[..n]) + Normalize(b[n..])
  {
    hide Normalize;
    var n := Run(p, b);
    assert All(Ascii, b[..n]);
    assert b == b[..n] + b[n..];
    NormAscii(b[..n], b[n..]);
    assert All(p, FixAll(b[..n])) by {
      forall y | y in FixAll(b[..n]) ensures p(y) {
        var i :| 0 <= i < n && FixAll(b[..n])[i] == y;
        assert b[..n][i] in b[..n];
      }
    }
    if n == |b| {
      NormNil();
    } else if Ascii(b[n]) {
      NormPeel(b[n..]);
    } else {
      NormHead(b[n..]);
    }
    RunUnique(p, FixAll(b[..n]), Normalize(b[n..]));
  }

  function NormCut(c: Cut): Cut { Cut(Normalize(c.run), Fix(c.sep), Normalize(c.rest)) }

  lemma {:induction false} LooseCut(p: byte -> bool, b: bytes)
    requires Stable(p) && HoldsBeyondAscii(p)
    ensures match CutRun(p, b)
            case None => CutRun(p, Normalize(b)) == None
            case Some(c) => Ascii(c.sep) && CutRun(p, Normalize(b)) == Some(NormCut(c))
  {
    hide Normalize;
    var n := Run(p, b);
    LooseRun(p, b);
    NormNil();
    if n == |b| {
      assert b[n..] == [];
    } else {
      var m := |Normalize(b[..n])|;
      assert Normalize(b)[..m] == Normalize(b[..n]) && Normalize(b)[m] == Fix(b[n]) && Normalize(b)[m + 1..] == Normalize(b[n + 1..]);
      if n == 0 {
        assert b[..n] == [];
      }
    }
  }

  // The cut after digits.
  lemma {:induction false} DigitCut(b: bytes)
    ensures match CutRun(IsDigit, b)
            case None => CutRun(IsDigit, Normalize(b)) == None
            case Some(c) =>
              var c' := CutRun(IsDigit, Normalize(b));
              && c'.Some? && c'.value.run == c.run
              && if Ascii(c.sep) then c'.value.sep == Fix(c.sep) && c'.value.rest == Normalize(c.rest) else !Ascii(c'.value.sep)
  {
    hide Normalize;
    var n := Run(IsDigit, b);
    TightRun(IsDigit, b);
    assert FixAll(b[..n]) == b[..n] by {
      forall i | 0 <= i < n ensures Fix(b[i]) == b[i] {
        assert b[..n][i] in b[..n];
      }
    }
    if n == |b| {
      NormNil();
    } else {
      if Ascii(b[n]) {
        NormPeel(b[n..]);
        assert b[n..][1..] == b[n + 1..];
      } else {
        NormHead(b[n..]);
      }
      var r := Normalize(b);
      assert r[..n] == b[..n] && r[n] == Normalize(b[n..])[0] && r[n + 1..] == Normalize(b[n..])[1..];
    }
  }
}
