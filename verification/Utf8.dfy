/** Bytes, and Python's `str.encode("utf-8")` and `bytes.decode("utf-8", errors="replace")`.
    A `char` is a Unicode scalar value, so encoding never fails. */
module Utf8 {

  type byte = b: int | 0 <= b < 256
  type bytes = seq<byte>

  const REPLACEMENT: char := 0xFFFD as char

  function EncodeChar(c: char): (b: bytes)
    ensures 1 <= |b| <= 4
  {
    var n := c as int;
    if n < 0x80 then [n]
    else if n < 0x800 then [0xC0 + n / 64, 0x80 + n % 64]
    else if n < 0x10000 then [0xE0 + n / 4096, 0x80 + n / 64 % 64, 0x80 + n % 64]
    else [0xF0 + n / 262144, 0x80 + n / 4096 % 64, 0x80 + n / 64 % 64, 0x80 + n % 64]
  }

  function Encode(s: string): bytes {
    if s == [] then [] else EncodeChar(s[0]) + Encode(s[1..])
  }

  datatype Step = Step(c: char, used: nat)

  // Is there a continuation byte at position i, within the range the lead byte allows?
  predicate Continues(b: bytes, i: nat, lo: byte, hi: byte) {
    i < |b| && lo <= b[i] <= hi
  }

  // The six payload bits of the byte at position i.
  function Low(b: bytes, i: nat): (n: int)
    requires i < |b|
    ensures n == b[i] as int - 0x80
  {
    b[i] as int - 0x80
  }

  /** One character, or one replacement character for a maximal ill-formed prefix. */
  function DecodeStep(b: bytes): (r: Step)
    requires b != []
    ensures 1 <= r.used <= |b|
  {
    var lead: int := b[0];
    if lead < 0x80 then Step(lead as char, 1)
    else if 0xC2 <= lead <= 0xDF then
      if !Continues(b, 1, 0x80, 0xBF) then Step(REPLACEMENT, 1)
      else Step(((lead - 0xC0) * 64 + Low(b, 1)) as char, 2)
    else if 0xE0 <= lead <= 0xEF then
      if !Continues(b, 1, if lead == 0xE0 then 0xA0 else 0x80, if lead == 0xED then 0x9F else 0xBF) then
        Step(REPLACEMENT, 1)
      else if !Continues(b, 2, 0x80, 0xBF) then Step(REPLACEMENT, 2)
      else Step(((lead - 0xE0) * 4096 + Low(b, 1) * 64 + Low(b, 2)) as char, 3)
    else if 0xF0 <= lead <= 0xF4 then
      if !Continues(b, 1, if lead == 0xF0 then 0x90 else 0x80, if lead == 0xF4 then 0x8F else 0xBF) then
        Step(REPLACEMENT, 1)
      else if !Continues(b, 2, 0x80, 0xBF) then Step(REPLACEMENT, 2)
      else if !Continues(b, 3, 0x80, 0xBF) then Step(REPLACEMENT, 3)
      else Step(((lead - 0xF0) * 262144 + Low(b, 1) * 4096 + Low(b, 2) * 64 + Low(b, 3)) as char, 4)
    else Step(REPLACEMENT, 1)
  }

  function Decode(b: bytes): string {
    if b == [] then [] else
      var r := DecodeStep(b);
      [r.c] + Decode(b[r.used..])
  }

  lemma {:induction false} Split64(n: nat)
    ensures n == n / 64 * 64 + n % 64
    ensures n / 64 / 64 == n / 4096
  {
  }

  lemma {:induction false} SixBitGroups(n: nat)
    ensures n == n / 64 * 64 + n % 64
    ensures n == n / 4096 * 4096 + n / 64 % 64 * 64 + n % 64
    ensures n == n / 262144 * 262144 + n / 4096 % 64 * 4096 + n / 64 % 64 * 64 + n % 64
  {
    Split64(n);
    Split64(n / 64);
    Split64(n / 4096);
    var p, q := n / 4096, n / 262144;
    assert p / 64 == q;
  }

  lemma {:induction false} EncodedCharDecodes(c: char, rest: bytes)
    ensures DecodeStep(EncodeChar(c) + rest) == Step(c, |EncodeChar(c)|)
  {
    var n := c as int;
    var e := EncodeChar(c);
    var b := e + rest;
    SixBitGroups(n);
    assert forall i :: 0 <= i < |e| ==> b[i] == e[i];
    if n < 0x80 {
    } else if n < 0x800 {
      assert DecodeStep(b).c as int == n;
    } else if n < 0x10000 {
      assert 0xE0 <= b[0] <= 0xEF;
      assert b[0] == 0xE0 ==> b[1] >= 0xA0;
      assert b[0] == 0xED ==> b[1] <= 0x9F;
      assert DecodeStep(b).c as int == n;
    } else {
      assert 0xF0 <= b[0] <= 0xF4;
      assert b[0] == 0xF0 ==> b[1] >= 0x90;
      assert b[0] == 0xF4 ==> b[1] <= 0x8F;
      assert DecodeStep(b).c as int == n;
    }
  }

  lemma {:induction false} DecodeEncodeThen(s: string, rest: bytes)
    ensures Decode(Encode(s) + rest) == s + Decode(rest)
  {
    hide EncodeChar, DecodeStep;
    if s == [] {
      assert Encode(s) + rest == rest;
    } else {
      var c := EncodeChar(s[0]);
      var b := Encode(s) + rest;
      assert b == c + (Encode(s[1..]) + rest);
      EncodedCharDecodes(s[0], Encode(s[1..]) + rest);
      assert b[|c|..] == Encode(s[1..]) + rest;
      DecodeEncodeThen(s[1..], rest);
    }
  }

  /** Text survives encoding. */
  lemma {:induction false} DecodeEncode(s: string)
    ensures Decode(Encode(s)) == s
  {
    DecodeEncodeThen(s, []);
    assert Encode(s) + [] == Encode(s);
  }

  lemma {:induction false} EncodeConcat(s: string, t: string)
    ensures Encode(s + t) == Encode(s) + Encode(t)
  {
    if s == [] {
      assert s + t == t;
    } else {
      assert (s + t)[1..] == s[1..] + t;
      EncodeConcat(s[1..], t);
    }
  }

  // ----- what one step of decoding is, by the encoding alone -----

  lemma {:induction false} Digits64(l: nat, m: nat, k: nat)
    requires m < 64 && k < 64
    ensures var n := l * 4096 + m * 64 + k; n / 4096 == l && n / 64 % 64 == m && n % 64 == k
  {
    var n := l * 4096 + m * 64 + k;
    assert n / 64 == l * 64 + m;
  }

  lemma {:induction false} TwoBytes(b: bytes)
    requires b != [] && 0xC2 <= b[0] <= 0xDF && Continues(b, 1, 0x80, 0xBF)
    ensures EncodeChar(DecodeStep(b).c) == b[..2]
  {
    Digits64(0, b[0] - 0xC0, b[1] - 0x80);
  }

  // A lead byte of three, and a second byte that may follow it.
  predicate Leads3(b: bytes) {
    |b| >= 2 && 0xE0 <= b[0] <= 0xEF && Continues(b, 1, if b[0] == 0xE0 then 0xA0 else 0x80, if b[0] == 0xED then 0x9F else 0xBF)
  }

  predicate Leads4(b: bytes) {
    |b| >= 2 && 0xF0 <= b[0] <= 0xF4 && Continues(b, 1, if b[0] == 0xF0 then 0x90 else 0x80, if b[0] == 0xF4 then 0x8F else 0xBF)
  }

  lemma {:induction false} ThreeBytes(b: bytes)
    requires Leads3(b) && Continues(b, 2, 0x80, 0xBF)
    ensures EncodeChar(DecodeStep(b).c) == b[..3]
  {
    Digits64(b[0] - 0xE0, b[1] - 0x80, b[2] - 0x80);
  }

  lemma {:induction false} FourBytes(b: bytes)
    requires Leads4(b) && Continues(b, 2, 0x80, 0xBF) && Continues(b, 3, 0x80, 0xBF)
    ensures EncodeChar(DecodeStep(b).c) == b[..4]
  {
    var l: int, m: int, j: int, k: int := b[0] - 0xF0, b[1] - 0x80, b[2] - 0x80, b[3] - 0x80;
    Digits64(l * 64 + m, j, k);
    var n := (l * 64 + m) * 4096 + j * 64 + k;
    assert n == l * 262144 + m * 4096 + j * 64 + k;
    assert n / 4096 == l * 64 + m && (l * 64 + m) % 64 == m && n / 262144 == l;
  }

  lemma {:induction false} EncodedShape(c: char)
    ensures var e := EncodeChar(c);
            || (|e| == 1 && e[0] < 0x80)
            || (|e| == 2 && 0xC2 <= e[0] <= 0xDF && Continues(e, 1, 0x80, 0xBF))
            || (|e| == 3 && Leads3(e) && Continues(e, 2, 0x80, 0xBF))
            || (|e| == 4 && Leads4(e) && Continues(e, 2, 0x80, 0xBF) && Continues(e, 3, 0x80, 0xBF))
  {
    SixBitGroups(c as int);
  }

  // The beginning of some encoded character.
  ghost predicate Begins(p: bytes) {
    exists c: char :: p <= EncodeChar(c)
  }

  ghost predicate WholeChar(b: bytes) {
    exists c: char :: EncodeChar(c) <= b
  }

  lemma {:induction false} BeginsShape(p: bytes)
    requires Begins(p) && |p| >= 2
    ensures || (0xC2 <= p[0] <= 0xDF && |p| <= 2 && Continues(p, 1, 0x80, 0xBF))
            || (Leads3(p) && |p| <= 3 && (|p| == 3 ==> Continues(p, 2, 0x80, 0xBF)))
            || (Leads4(p) && |p| <= 4 && (|p| >= 3 ==> Continues(p, 2, 0x80, 0xBF)) && (|p| == 4 ==> Continues(p, 3, 0x80, 0xBF)))
  {
    hide EncodeChar;
    var c: char :| p <= EncodeChar(c);
    EncodedShape(c);
  }

  lemma {:induction false} ThreeBegins(p: bytes)
    requires |p| == 2 && Leads3(p)
    ensures Begins(p)
  {
    hide EncodeChar, DecodeStep;
    var b := p + [0x80];
    ThreeBytes(b);
    assert p <= EncodeChar(DecodeStep(b).c);
  }

  lemma {:induction false} FourBegins(p: bytes)
    requires 2 <= |p| <= 3 && Leads4(p) && (|p| == 3 ==> Continues(p, 2, 0x80, 0xBF))
    ensures Begins(p)
  {
    hide EncodeChar, DecodeStep;
    var b := p + if |p| == 3 then [0x80] else [0x80, 0x80];
    FourBytes(b);
    assert p <= EncodeChar(DecodeStep(b).c);
  }

  lemma {:induction false} Complete(b: bytes, e: bytes)
    requires b != [] && EncodeChar(DecodeStep(b).c) == e && e <= b
    ensures WholeChar(b)
  {
  }

  lemma {:induction false} OneByteChar(b: bytes)
    requires b != [] && b[0] < 0x80
    ensures WholeChar(b)
  {
    var c := b[0] as char;
    assert EncodeChar(c) == [b[0]] <= b;
  }

  // The ill-formed bytes that are replaced together.
  lemma {:induction false} IllFormedStep(b: bytes)
    requires b != [] && !WholeChar(b)
    ensures var r := DecodeStep(b);
            r.c == REPLACEMENT && (r.used == 1 || Begins(b[..r.used])) && (r.used < |b| ==> !Begins(b[..r.used + 1]))
  {
    hide EncodeChar, Begins, WholeChar;
    if b[0] < 0x80 { OneByteChar(b); }
    if 0xC2 <= b[0] <= 0xDF && Continues(b, 1, 0x80, 0xBF) { TwoBytes(b); Complete(b, b[..2]); }
    if Leads3(b) {
      if Continues(b, 2, 0x80, 0xBF) { ThreeBytes(b); Complete(b, b[..3]); }
      ThreeBegins(b[..2]);
    }
    if Leads4(b) {
      FourBegins(b[..2]);
      if Continues(b, 2, 0x80, 0xBF) {
        FourBegins(b[..3]);
        if Continues(b, 3, 0x80, 0xBF) { FourBytes(b); Complete(b, b[..4]); }
      }
    }
    var k := DecodeStep(b).used;
    if k < |b| && Begins(b[..k + 1]) {
      BeginsShape(b[..k + 1]);
    }
  }

  /** If the bytes begin with an encoded character, that is it. Otherwise a replacement character
      stands for the longest beginning of some encoded character, and for one byte at least. */
  lemma {:induction false} DecodeStepExactly(b: bytes)
    requires b != []
    ensures forall c: char :: EncodeChar(c) <= b ==> DecodeStep(b) == Step(c, |EncodeChar(c)|)
    ensures !WholeChar(b) ==>
              var r := DecodeStep(b);
              r.c == REPLACEMENT && (r.used == 1 || Begins(b[..r.used])) && (r.used < |b| ==> !Begins(b[..r.used + 1]))
  {
    hide EncodeChar, DecodeStep, Begins;
    forall c: char | EncodeChar(c) <= b ensures DecodeStep(b) == Step(c, |EncodeChar(c)|) {
      EncodedCharDecodes(c, b[|EncodeChar(c)|..]);
      assert b == EncodeChar(c) + b[|EncodeChar(c)|..];
    }
    if !WholeChar(b) {
      IllFormedStep(b);
    }
  }

  /** Characters at both ends of each length of encoding. */
  lemma {:induction false} EncodedSamples()
    ensures EncodeChar(REPLACEMENT) == [0xEF, 0xBF, 0xBD]
    ensures EncodeChar(0x7F as char) == [0x7F] && EncodeChar(0x80 as char) == [0xC2, 0x80]
    ensures EncodeChar(0x7FF as char) == [0xDF, 0xBF] && EncodeChar(0x800 as char) == [0xE0, 0xA0, 0x80]
    ensures EncodeChar(0x20AC as char) == [0xE2, 0x82, 0xAC] && EncodeChar(0xFFFF as char) == [0xEF, 0xBF, 0xBF]
    ensures EncodeChar(0x10000 as char) == [0xF0, 0x90, 0x80, 0x80] && EncodeChar(0x10FFFF as char) == [0xF4, 0x8F, 0xBF, 0xBF]
  {
  }

  // ----- self-synchronisation at ASCII bytes -----

  lemma {:induction false} StepStopsAtAscii(a: bytes, x: byte, b: bytes)
    requires a != [] && x < 0x80
    ensures DecodeStep(a + [x] + b) == DecodeStep(a)
  {
    var whole := a + [x] + b;
    assert forall i :: 0 <= i < |a| ==> whole[i] == a[i];
    assert whole[|a|] == x;
  }

  /** However ill-formed the bytes before an ASCII byte are, decoding never swallows it. */
  lemma {:induction false} DecodeSplitsAtAscii(a: bytes, x: byte, b: bytes)
    requires x < 0x80
    ensures Decode(a + [x] + b) == Decode(a) + [x as char] + Decode(b)
    decreases |a|
  {
    var whole := a + [x] + b;
    if a == [] {
      assert whole[1..] == b;
    } else {
      StepStopsAtAscii(a, x, b);
      var k := DecodeStep(a).used;
      assert whole[k..] == a[k..] + [x] + b;
      DecodeSplitsAtAscii(a[k..], x, b);
    }
  }

  lemma {:induction false} DecodedAscii(b: bytes, x: byte)
    requires x < 0x80 && x as char in Decode(b)
    ensures x in b
    decreases |b|
  {
    var r := DecodeStep(b);
    if r.c == x as char {
      assert b[0] == x;
    } else {
      DecodedAscii(b[r.used..], x);
    }
  }

  lemma {:induction false} EncodedAscii(s: string, x: byte)
    requires x < 0x80 && x in Encode(s)
    ensures x as char in s
  {
    if x in EncodeChar(s[0]) {
      assert s[0] == x as char;
    } else {
      EncodedAscii(s[1..], x);
    }
  }
}
