/** The scanner of sylo/parser.py that separates STRUCTURED-DATA from MSG
    (section 6.3 of RFC 5424). */
module StructuredData {
  import opened Wrappers
  import opened Utf8
  import opened Matchers

  // What is left after the `]` that closes the element being scanned, if there is one.
  function AfterElement(b: bytes, inQuotes: bool): (r: Option<bytes>)
    ensures r.Some? ==> |r.value| < |b|
  {
    if b == [] then None
    else if inQuotes then
      if b[0] == BACKSLASH then (if |b| == 1 then None else AfterElement(b[2..], true))
      else AfterElement(b[1..], b[0] != QUOTE)
    else if b[0] == CLOSE then Some(b[1..])
    else AfterElement(b[1..], b[0] == QUOTE)
  }

  // What is left after all the elements, if every one is closed.
  function AfterElements(b: bytes): (r: Option<bytes>)
    ensures r.Some? ==> |r.value| <= |b|
    decreases |b|
  {
    if b == [] || b[0] != OPEN then Some(b)
    else match AfterElement(b[1..], false)
      case None => None
      case Some(rest) => AfterElements(rest)
  }

  function DropSpace(b: bytes): (r: bytes)
    ensures |r| <= |b|
  {
    if b != [] && b[0] == SP then b[1..] else b
  }

  /** What the scanner keeps as the message. */
  function Message(remainder: bytes): bytes {
    if remainder == [] then remainder
    else if remainder[0] == DASH then DropSpace(remainder[1..])
    else if remainder[0] != OPEN then remainder
    else match AfterElements(remainder)
      case None => remainder
      case Some(rest) => DropSpace(rest)
  }

  // ----- the message is a suffix -----

  ghost predicate Suffix(s: bytes, b: bytes) {
    |s| <= |b| && s == b[|b| - |s|..]
  }

  lemma {:induction false} SuffixOfTail(s: bytes, b: bytes, k: nat)
    requires k <= |b| && Suffix(s, b[k..])
    ensures Suffix(s, b)
  {
    assert b[k..][|b| - k - |s|..] == b[|b| - |s|..];
  }

  lemma {:induction false} AfterElementSuffix(b: bytes, inQuotes: bool)
    requires AfterElement(b, inQuotes).Some?
    ensures Suffix(AfterElement(b, inQuotes).value, b)
    decreases |b|
  {
    var rest := AfterElement(b, inQuotes).value;
    if inQuotes && b[0] == BACKSLASH {
      AfterElementSuffix(b[2..], true);
      SuffixOfTail(rest, b, 2);
    } else if inQuotes || b[0] != CLOSE {
      AfterElementSuffix(b[1..], if inQuotes then b[0] != QUOTE else b[0] == QUOTE);
      SuffixOfTail(rest, b, 1);
    }
  }

  lemma {:induction false} AfterElementsSuffix(b: bytes)
    requires AfterElements(b).Some?
    ensures Suffix(AfterElements(b).value, b)
    decreases |b|
  {
    if b != [] && b[0] == OPEN {
      var rest := AfterElement(b[1..], false).value;
      AfterElementSuffix(b[1..], false);
      SuffixOfTail(rest, b, 1);
      AfterElementsSuffix(rest);
      SuffixOfTail(AfterElements(b).value, b, |b| - |rest|);
    }
  }

  /** The scanner only ever cuts at the front, and cuts nothing off an unterminated element. */
  lemma {:induction false} MessageSuffix(remainder: bytes)
    ensures Suffix(Message(remainder), remainder)
    ensures remainder != [] && remainder[0] == OPEN && AfterElements(remainder).None? ==> Message(remainder) == remainder
  {
    if remainder != [] && remainder[0] == OPEN && AfterElements(remainder).Some? {
      var rest := AfterElements(remainder).value;
      AfterElementsSuffix(remainder);
      SuffixOfTail(DropSpace(rest), remainder, |remainder| - |rest|);
    }
  }

  // From position i on; past the end there is nothing to find.
  ghost predicate Scanning(b: bytes, i: nat, inQuotes: bool, found: Option<bytes>) {
    found == if i <= |b| then AfterElement(b[i..], inQuotes) else None
  }

  lemma {:induction false} ScanStep(b: bytes, i: nat, inQuotes: bool, found: Option<bytes>)
    requires i < |b| && Scanning(b, i, inQuotes, found)
    ensures inQuotes && b[i] == BACKSLASH ==> Scanning(b, i + 2, true, found)
    ensures inQuotes && b[i] != BACKSLASH ==> Scanning(b, i + 1, b[i] != QUOTE, found)
    ensures !inQuotes && b[i] == CLOSE ==> found == Some(b[i + 1..])
    ensures !inQuotes && b[i] != CLOSE ==> Scanning(b, i + 1, b[i] == QUOTE, found)
  {
    assert b[i..][1..] == b[i + 1..];
    if i + 1 < |b| {
      assert b[i..][2..] == b[i + 2..];
    }
  }

  /** The scanner as written: two nested loops over an index that an escape at the very end
      moves one past the last byte. */
  method SplitStructuredData(remainder: bytes) returns (msg: bytes)
    ensures msg == Message(remainder)
  {
    if |remainder| > 0 && remainder[0] == DASH {
      var rest := remainder[1..];
      return if rest != [] && rest[0] == SP then rest[1..] else rest;
    }
    if |remainder| == 0 || remainder[0] != OPEN {
      return remainder;
    }
    var i, n := 0, |remainder|;
    while i < n && remainder[i] == OPEN
      invariant 0 <= i <= n
      invariant AfterElements(remainder) == AfterElements(remainder[i..])
      decreases n - i
    {
      ghost var start := i;
      assert remainder[i..][1..] == remainder[i + 1..];
      i := i + 1;
      var inQuotes, closed := false, false;
      ghost var found := AfterElement(remainder[i..], false);
      while i < n
        invariant start < i <= n + 1
        invariant !closed && Scanning(remainder, i, inQuotes, found)
        decreases n - i
      {
        var c := remainder[i];
        ScanStep(remainder, i, inQuotes, found);
        if inQuotes {
          if c == BACKSLASH {
            i := i + 2;
            continue;
          }
          if c == QUOTE {
            inQuotes := false;
          }
          i := i + 1;
          continue;
        }
        if c == QUOTE {
          inQuotes := true;
          i := i + 1;
          continue;
        }
        if c == CLOSE {
          i := i + 1;
          closed := true;
          break;
        }
        i := i + 1;
      }
      if !closed {
        return remainder;
      }
    }
    assert AfterElements(remainder) == Some(remainder[i..]);
    msg := if i < n && remainder[i] == SP then remainder[i + 1..] else remainder[i..];
  }

  // ----- what an element is, as a grammar -----

  // Inside quotes: an escape sequence, or any byte but a quote or a backslash.
  datatype Quoted = Plain(c: byte) | Escaped(c: byte) {
    predicate Valid() { Plain? ==> c != QUOTE && c != BACKSLASH }
    function Text(): bytes { if Plain? then [c] else [BACKSLASH, c] }
  }

  // Between the brackets: a quoted string, or any byte but a quote or a closing bracket.
  datatype Item = Bare(c: byte) | Str(parts: seq<Quoted>) {
    predicate Valid() {
      if Bare? then c != QUOTE && c != CLOSE else forall q :: q in parts ==> q.Valid()
    }
    function Text(): bytes { if Bare? then [c] else [QUOTE] + PartsText(parts) + [QUOTE] }
  }

  function PartsText(parts: seq<Quoted>): bytes {
    if parts == [] then [] else parts[0].Text() + PartsText(parts[1..])
  }

  function ItemsText(items: seq<Item>): bytes {
    if items == [] then [] else items[0].Text() + ItemsText(items[1..])
  }

  predicate ValidItems(items: seq<Item>) {
    forall x :: x in items ==> x.Valid()
  }

  lemma {:induction false} QuotedScan(parts: seq<Quoted>, rest: bytes)
    requires forall q :: q in parts ==> q.Valid()
    ensures AfterElement(PartsText(parts) + [QUOTE] + rest, true) == AfterElement(rest, false)
  {
    var b := PartsText(parts) + [QUOTE] + rest;
    if parts == [] {
      assert b[1..] == rest;
    } else {
      var q := parts[0];
      assert q in parts && q.Valid();
      assert b == q.Text() + (PartsText(parts[1..]) + [QUOTE] + rest);
      assert b[|q.Text()|..] == PartsText(parts[1..]) + [QUOTE] + rest;
      QuotedScan(parts[1..], rest);
    }
  }

  lemma {:induction false} StringScan(parts: seq<Quoted>, tail: bytes)
    requires forall q :: q in parts ==> q.Valid()
    ensures AfterElement([QUOTE] + PartsText(parts) + [QUOTE] + tail, false) == AfterElement(tail, false)
  {
    QuotedScan(parts, tail);
    var b := [QUOTE] + PartsText(parts) + [QUOTE] + tail;
    assert b[1..] == PartsText(parts) + [QUOTE] + tail;
  }

  lemma {:induction false} ItemScan(x: Item, tail: bytes)
    requires x.Valid()
    ensures AfterElement(x.Text() + tail, false) == AfterElement(tail, false)
  {
    var b := x.Text() + tail;
    if x.Bare? {
      assert b == [x.c] + tail && b[1..] == tail;
    } else {
      StringScan(x.parts, tail);
    }
  }

  /** Completeness: a closed element is recognised whatever follows it. */
  lemma {:induction false} ElementScan(items: seq<Item>, rest: bytes)
    requires ValidItems(items)
    ensures AfterElement(ItemsText(items) + [CLOSE] + rest, false) == Some(rest)
  {
    var b := ItemsText(items) + [CLOSE] + rest;
    if items == [] {
      assert b[1..] == rest;
    } else {
      var x := items[0];
      var tail := ItemsText(items[1..]) + [CLOSE] + rest;
      assert x in items && x.Valid();
      assert b == x.Text() + tail;
      ElementScan(items[1..], rest);
      ItemScan(x, tail);
    }
  }

  function Whole(inQuotes: bool, parts: seq<Quoted>, items: seq<Item>, rest: bytes): bytes {
    (if inQuotes then PartsText(parts) + [QUOTE] else []) + (ItemsText(items) + [CLOSE] + rest)
  }

  lemma {:induction false} ConsPart(q: Quoted, parts: seq<Quoted>, items: seq<Item>, rest: bytes)
    ensures Whole(true, [q] + parts, items, rest) == q.Text() + Whole(true, parts, items, rest)
  {
    assert ([q] + parts)[1..] == parts;
  }

  lemma {:induction false} ConsItem(x: Item, items: seq<Item>, rest: bytes)
    ensures Whole(false, [], [x] + items, rest) == x.Text() + Whole(false, [], items, rest)
  {
    assert ([x] + items)[1..] == items;
  }

  /** Soundness: the parts of the string being scanned, if any, and the items after it. */
  lemma {:induction false} ScanSound(b: bytes, inQuotes: bool) returns (parts: seq<Quoted>, items: seq<Item>)
    requires AfterElement(b, inQuotes).Some?
    ensures ValidItems(items) && forall q :: q in parts ==> q.Valid()
    ensures !inQuotes ==> parts == []
    ensures b == Whole(inQuotes, parts, items, AfterElement(b, inQuotes).value)
    decreases |b|
  {
    var rest := AfterElement(b, inQuotes).value;
    assert b == [b[0]] + b[1..];
    if inQuotes && b[0] == BACKSLASH {
      parts, items := ScanSound(b[2..], true);
      assert b == [b[0], b[1]] + b[2..];
      ConsPart(Escaped(b[1]), parts, items, rest);
      parts := [Escaped(b[1])] + parts;
    } else if inQuotes && b[0] == QUOTE {
      parts, items := ScanSound(b[1..], false);
    } else if inQuotes {
      parts, items := ScanSound(b[1..], true);
      ConsPart(Plain(b[0]), parts, items, rest);
      parts := [Plain(b[0])] + parts;
    } else if b[0] == CLOSE {
      parts, items := [], [];
    } else if b[0] == QUOTE {
      parts, items := ScanSound(b[1..], true);
      ConsItem(Str(parts), items, rest);
      parts, items := [], [Str(parts)] + items;
    } else {
      parts, items := ScanSound(b[1..], false);
      ConsItem(Bare(b[0]), items, rest);
      items := [Bare(b[0])] + items;
    }
  }

  /** The scanner finds the end of an element exactly where the grammar has one. */
  lemma {:induction false} ElementExact(b: bytes, rest: bytes)
    ensures AfterElement(b, false) == Some(rest) <==>
            exists items :: ValidItems(items) && b == ItemsText(items) + [CLOSE] + rest
  {
    if AfterElement(b, false) == Some(rest) {
      var _, items := ScanSound(b, false);
      assert b == ItemsText(items) + [CLOSE] + rest;
    }
    forall items | ValidItems(items) && b == ItemsText(items) + [CLOSE] + rest
      ensures AfterElement(b, false) == Some(rest)
    {
      ElementScan(items, rest);
    }
  }

  // Elements one after the other.
  function ElementsText(lists: seq<seq<Item>>): bytes {
    if lists == [] then [] else [OPEN] + ItemsText(lists[0]) + [CLOSE] + ElementsText(lists[1..])
  }

  ghost predicate ValidLists(lists: seq<seq<Item>>) {
    forall l :: l in lists ==> ValidItems(l)
  }

  // Elements, and then something that is not one more.
  ghost predicate ElementsThen(b: bytes, lists: seq<seq<Item>>, rest: bytes) {
    ValidLists(lists) && b == ElementsText(lists) + rest && (rest == [] || rest[0] != OPEN)
  }

  lemma {:induction false} ElementsThenCons(b: bytes, items: seq<Item>, tail: bytes, lists: seq<seq<Item>>, rest: bytes)
    requires ValidItems(items) && b == [OPEN] + (ItemsText(items) + [CLOSE] + tail) && ElementsThen(tail, lists, rest)
    ensures ElementsThen(b, [items] + lists, rest)
  {
    hide ItemsText, ValidItems;
    assert ([items] + lists)[1..] == lists;
  }

  // The first element, and the others.
  lemma {:induction false} ElementsThenTail(b: bytes, lists: seq<seq<Item>>, rest: bytes) returns (tail: bytes)
    requires lists != [] && ElementsThen(b, lists, rest)
    ensures ValidItems(lists[0]) && b == [OPEN] + (ItemsText(lists[0]) + [CLOSE] + tail) && ElementsThen(tail, lists[1..], rest)
  {
    hide ItemsText, ValidItems;
    assert lists[0] in lists && forall l :: l in lists[1..] ==> l in lists;
    tail := ElementsText(lists[1..]) + rest;
  }

  lemma {:induction false} ElementsSound(b: bytes) returns (lists: seq<seq<Item>>)
    requires AfterElements(b).Some?
    ensures ElementsThen(b, lists, AfterElements(b).value)
    decreases |b|
  {
    lists := [];
    if b != [] && b[0] == OPEN {
      hide AfterElement, ItemsText, ElementsThen, ValidItems;
      var rest := AfterElement(b[1..], false).value;
      var items := OneElement(b[1..], rest);
      lists := ElementsSound(rest);
      assert b == [OPEN] + b[1..];
      ElementsThenCons(b, items, rest, lists, AfterElements(b).value);
      lists := [items] + lists;
    }
  }

  lemma {:induction false} OneElement(b: bytes, rest: bytes) returns (items: seq<Item>)
    requires AfterElement(b, false) == Some(rest)
    ensures ValidItems(items) && b == ItemsText(items) + [CLOSE] + rest
  {
    ElementExact(b, rest);
    items :| ValidItems(items) && b == ItemsText(items) + [CLOSE] + rest;
  }

  lemma {:induction false} ElementsComplete(b: bytes, lists: seq<seq<Item>>, rest: bytes)
    requires ElementsThen(b, lists, rest)
    ensures AfterElements(b) == Some(rest)
    decreases |lists|
  {
    if lists == [] {
      assert b == rest;
    } else {
      hide AfterElement, ItemsText, ElementsThen, ValidItems;
      var tail := ElementsThenTail(b, lists, rest);
      assert b[1..] == ItemsText(lists[0]) + [CLOSE] + tail && b[0] == OPEN;
      ElementScan(lists[0], tail);
      ElementsComplete(tail, lists[1..], rest);
    }
  }

  // Set off by a space, or nothing.
  ghost predicate SetOff(b: bytes, msg: bytes) {
    b == [SP] + msg || (b == msg && (msg == [] || msg[0] != SP))
  }

  lemma {:induction false} SetOffIsDropped(b: bytes, msg: bytes)
    requires SetOff(b, msg)
    ensures DropSpace(b) == msg
  {
    if b == [SP] + msg {
      assert b[1..] == msg;
    }
  }

  /** The message behind whatever follows the header, by the grammar alone: after NILVALUE, after any
      number of closed elements, or else all of it; an element that is not closed is no element. */
  lemma {:induction false} MessageExactly(b: bytes)
    ensures forall r, msg :: b == [DASH] + r && SetOff(r, msg) ==> Message(b) == msg
    ensures forall lists, r, msg :: lists != [] && ElementsThen(b, lists, r) && SetOff(r, msg) ==> Message(b) == msg
    ensures b == [] || (b[0] != DASH && b[0] != OPEN) ==> Message(b) == b
    ensures b != [] && b[0] == OPEN && (forall lists, r :: !ElementsThen(b, lists, r)) ==> Message(b) == b
  {
    hide AfterElements, ElementsText, ValidLists, ElementsThen, DropSpace;
    forall r, msg | b == [DASH] + r && SetOff(r, msg) ensures Message(b) == msg {
      assert b[1..] == r;
      SetOffIsDropped(r, msg);
    }
    forall lists, r, msg | lists != [] && ElementsThen(b, lists, r) && SetOff(r, msg) ensures Message(b) == msg {
      ElementsComplete(b, lists, r);
      ElementsOpen(b, lists, r);
      SetOffIsDropped(r, msg);
    }
    if b != [] && b[0] == OPEN && AfterElements(b).Some? {
      var lists := ElementsSound(b);
    }
  }

  lemma {:induction false} ElementsOpen(b: bytes, lists: seq<seq<Item>>, rest: bytes)
    requires lists != [] && ElementsThen(b, lists, rest)
    ensures b != [] && b[0] == OPEN
  {
  }

  // ----- the printer of section 6.3 of RFC 5424 -----

  datatype Param = Param(name: bytes, value: bytes)
  datatype Element = Element(id: bytes, params: seq<Param>) {
    predicate Valid() {
      SdName(id) && forall p :: p in params ==> SdName(p.name)
    }
  }

  // SD-NAME: printable ASCII except `=`, space, `]` and `"`.
  predicate SdNameByte(c: byte) { 33 <= c <= 126 && c != EQUALS && c != CLOSE && c != QUOTE }
  predicate SdName(name: bytes) { 1 <= |name| <= 32 && All(SdNameByte, name) }

  // PARAM-VALUE with `"`, `\` and `]` escaped.
  function Escape(value: bytes): seq<Quoted> {
    if value == [] then []
    else
      var c := value[0];
      [if c == QUOTE || c == BACKSLASH || c == CLOSE then Escaped(c) else Plain(c)] + Escape(value[1..])
  }

  function Bares(bs: bytes): seq<Item> {
    if bs == [] then [] else [Bare(bs[0])] + Bares(bs[1..])
  }

  function ParamItems(params: seq<Param>): seq<Item> {
    if params == [] then [] else
      [Bare(SP)] + Bares(params[0].name) + [Bare(EQUALS), Str(Escape(params[0].value))] + ParamItems(params[1..])
  }

  function ElementItems(e: Element): seq<Item> {
    Bares(e.id) + ParamItems(e.params)
  }

  /** The elements printed one after the other with nothing between them. */
  function PrintElements(es: seq<Element>): bytes {
    if es == [] then []
    else [OPEN] + ItemsText(ElementItems(es[0])) + [CLOSE] + PrintElements(es[1..])
  }

  /** SD-NAME, in characters. */
  lemma {:induction false} SdNameExactly(name: bytes)
    ensures SdName(name) <==>
            1 <= |name| <= 32 && forall b :: b in name ==> '!' <= b as char <= '~' && b as char != '=' && b as char != ']' && b as char != '"'
  {
  }

  lemma {:induction false} EscapeConcat(a: bytes, b: bytes)
    ensures Escape(a + b) == Escape(a) + Escape(b)
  {
    if a == [] {
      assert a + b == b;
    } else {
      assert (a + b)[1..] == a[1..] + b;
      EscapeConcat(a[1..], b);
    }
  }

  lemma {:induction false} EscapedByte(c: byte)
    ensures PartsText(Escape([c])) == if c as char == '"' || c as char == '\\' || c as char == ']' then [BACKSLASH, c] else [c]
  {
    assert [c][1..] == [];
    var q := if c == QUOTE || c == BACKSLASH || c == CLOSE then Escaped(c) else Plain(c);
    assert Escape([c]) == [q] && [q][1..] == [];
    assert q.Text() + PartsText([]) == q.Text();
  }

  lemma {:induction false} BaresText(a: bytes)
    ensures ItemsText(Bares(a)) == a
  {
    if a != [] {
      BaresText(a[1..]);
      assert ([Bare(a[0])] + Bares(a[1..]))[1..] == Bares(a[1..]);
      assert a == [a[0]] + a[1..];
    }
  }

  /** What is printed of a value, byte by byte, and of a name. */
  lemma {:induction false} EscapedParts(a: bytes, b: bytes, c: byte)
    ensures Escape(a + b) == Escape(a) + Escape(b)
    ensures PartsText(Escape([c])) == if c as char == '"' || c as char == '\\' || c as char == ']' then [BACKSLASH, c] else [c]
    ensures ItemsText(Bares(a)) == a
  {
    hide Escape, PartsText, ItemsText, Bares;
    EscapeConcat(a, b);
    EscapedByte(c);
    BaresText(a);
  }

  lemma {:induction false} ItemsTextConcat(a: seq<Item>, b: seq<Item>)
    ensures ItemsText(a + b) == ItemsText(a) + ItemsText(b)
  {
    if a == [] {
      assert a + b == b;
    } else {
      assert (a + b)[1..] == a[1..] + b;
      ItemsTextConcat(a[1..], b);
    }
  }

  // The parameters of an element, each set off by a space and quoted.
  function ParamsText(params: seq<Param>): bytes {
    if params == [] then []
    else [SP] + params[0].name + [EQUALS, QUOTE] + PartsText(Escape(params[0].value)) + [QUOTE] + ParamsText(params[1..])
  }

  lemma {:induction false} OneItemText(x: Item)
    ensures ItemsText([x]) == x.Text()
  {
    assert [x][1..] == [] && x.Text() + [] == x.Text();
  }

  lemma {:induction false} ParamText(p: Param)
    ensures ItemsText([Bare(SP)] + Bares(p.name) + [Bare(EQUALS), Str(Escape(p.value))]) ==
            [SP] + p.name + [EQUALS, QUOTE] + PartsText(Escape(p.value)) + [QUOTE]
  {
    hide Escape, ItemsText, PartsText;
    var a, b, c, d := [Bare(SP)], Bares(p.name), [Bare(EQUALS)], [Str(Escape(p.value))];
    assert a + b + [Bare(EQUALS), Str(Escape(p.value))] == a + b + c + d;
    ItemsTextConcat(a + b + c, d);
    ItemsTextConcat(a + b, c);
    ItemsTextConcat(a, b);
    OneItemText(Bare(SP));
    OneItemText(Bare(EQUALS));
    OneItemText(Str(Escape(p.value)));
    BaresText(p.name);
  }

  lemma {:induction false} ParamItemsText(params: seq<Param>)
    ensures ItemsText(ParamItems(params)) == ParamsText(params)
  {
    if params != [] {
      hide Escape, ItemsText, PartsText, Bares;
      var p, more := params[0], ParamItems(params[1..]);
      ParamItemsText(params[1..]);
      ParamText(p);
      ItemsTextConcat([Bare(SP)] + Bares(p.name) + [Bare(EQUALS), Str(Escape(p.value))], more);
    }
  }

  /** The layout of printed elements. */
  lemma {:induction false} PrintedLayout(es: seq<Element>)
    requires es != []
    ensures PrintElements(es) == [OPEN] + es[0].id + ParamsText(es[0].params) + [CLOSE] + PrintElements(es[1..])
  {
    hide ParamItems, ParamsText;
    ItemsTextConcat(Bares(es[0].id), ParamItems(es[0].params));
    BaresText(es[0].id);
    ParamItemsText(es[0].params);
  }

  lemma {:induction false} EscapeValid(value: bytes)
    ensures forall q :: q in Escape(value) ==> q.Valid()
  {
    if value != [] {
      EscapeValid(value[1..]);
    }
  }

  lemma {:induction false} BaresValid(bs: bytes)
    requires forall i :: 0 <= i < |bs| ==> bs[i] != QUOTE && bs[i] != CLOSE
    ensures ValidItems(Bares(bs))
  {
    if bs != [] {
      BaresValid(bs[1..]);
    }
  }

  lemma {:induction false} SdNameItems(name: bytes)
    requires SdName(name)
    ensures ValidItems(Bares(name))
  {
    forall i | 0 <= i < |name| ensures name[i] != QUOTE && name[i] != CLOSE {
      assert name[i] in name;
    }
    BaresValid(name);
  }

  lemma {:induction false} ElementValid(e: Element)
    requires e.Valid()
    ensures ValidItems(ElementItems(e))
  {
    SdNameItems(e.id);
    ParamsValid(e.params);
  }

  lemma {:induction false} ParamsValid(params: seq<Param>)
    requires forall p :: p in params ==> SdName(p.name)
    ensures ValidItems(ParamItems(params))
  {
    if params != [] {
      assert params[0] in params;
      EscapeValid(params[0].value);
      SdNameItems(params[0].name);
      ParamsValid(params[1..]);
    }
  }

  lemma {:induction false} PrintedElementsScan(es: seq<Element>, rest: bytes)
    requires forall e :: e in es ==> e.Valid()
    requires rest == [] || rest[0] != OPEN
    ensures es != [] ==> PrintElements(es)[0] == OPEN
    ensures AfterElements(PrintElements(es) + rest) == Some(rest)
  {
    hide AfterElement, ElementItems, ItemsText;
    var b := PrintElements(es) + rest;
    if es == [] {
      assert b == rest;
    } else {
      var e := es[0];
      assert e in es && e.Valid();
      ElementValid(e);
      var tail := PrintElements(es[1..]) + rest;
      assert b[1..] == ItemsText(ElementItems(e)) + [CLOSE] + tail;
      ElementScan(ElementItems(e), tail);
      PrintedElementsScan(es[1..], rest);
    }
  }

  /** STRUCTURED-DATA: NILVALUE, or at least one element. */
  datatype Sd = Nil | Elements(es: seq<Element>) {
    predicate Valid() { Elements? ==> es != [] && forall e :: e in es ==> e.Valid() }
    function Text(): bytes { if Nil? then [DASH] else PrintElements(es) }
  }

  // MSG is set off by a space; without MSG there is nothing after STRUCTURED-DATA.
  function MsgText(msg: Option<bytes>): bytes {
    match msg case None => [] case Some(m) => [SP] + m
  }

  function MsgOrEmpty(msg: Option<bytes>): bytes {
    match msg case None => [] case Some(m) => m
  }

  /** Whatever STRUCTURED-DATA holds, exactly the message comes out. */
  lemma {:induction false} SplitPrinted(sd: Sd, msg: Option<bytes>)
    requires sd.Valid()
    ensures Message(sd.Text() + MsgText(msg)) == MsgOrEmpty(msg)
  {
    var b := sd.Text() + MsgText(msg);
    if sd.Nil? {
      assert b[1..] == MsgText(msg);
    } else {
      PrintedElementsScan(sd.es, MsgText(msg));
      assert b[0] == OPEN;
    }
    if msg.Some? {
      assert MsgText(msg)[1..] == msg.value;
    }
  }
}
