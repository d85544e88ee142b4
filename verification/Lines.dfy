/** Splitting files at newlines, over bytes and over text alike. */
module Lines {

  function IndexOf<T(==)>(s: seq<T>, x: T): (n: nat)
    ensures n <= |s|
    ensures x !in s[..n]
    ensures n < |s| ==> s[n] == x
  {
    if s == [] || s[0] == x then 0 else
      var n := IndexOf(s[1..], x);
      assert s[..1 + n] == [s[0]] + s[1..][..n];
      1 + n
  }

  lemma {:induction false} IndexOfUnique<T>(a: seq<T>, x: T, b: seq<T>)
    requires x !in a
    ensures IndexOf(a + [x] + b, x) == |a|
  {
    if a != [] {
      assert (a + [x] + b)[1..] == a[1..] + [x] + b;
      IndexOfUnique(a[1..], x, b);
    }
  }

  /** Iterating over a file: its newline-terminated lines, then a last unterminated one if any. */
  function Split<T(==)>(s: seq<T>, nl: T): seq<seq<T>> {
    if s == [] then []
    else
      var n := IndexOf(s, nl);
      if n == |s| then [s] else [s[..n]] + Split(s[n + 1..], nl)
  }

  // The text of a list of terminated lines.
  function Text<T>(lines: seq<seq<T>>, nl: T): seq<T> {
    if lines == [] then [] else lines[0] + [nl] + Text(lines[1..], nl)
  }

  predicate Clean<T(==)>(s: seq<T>, nl: T) {
    s == [] || s[|s| - 1] == nl
  }

  predicate NoneIn<T(==)>(lines: seq<seq<T>>, nl: T) {
    forall l :: l in lines ==> nl !in l
  }

  lemma {:induction false} TextConcat<T>(a: seq<seq<T>>, b: seq<seq<T>>, nl: T)
    ensures Text(a + b, nl) == Text(a, nl) + Text(b, nl)
  {
    if a == [] {
      assert a + b == b;
    } else {
      assert (a + b)[1..] == a[1..] + b;
      TextConcat(a[1..], b, nl);
    }
  }

  lemma {:induction false} TextClean<T>(lines: seq<seq<T>>, nl: T)
    ensures Clean(Text(lines, nl), nl)
    ensures lines != [] ==> Text(lines, nl) != []
  {
    if lines != [] {
      TextClean(lines[1..], nl);
    }
  }

  // A terminated line in front is the first line.
  lemma {:induction false} SplitHead<T>(line: seq<T>, nl: T, rest: seq<T>)
    requires nl !in line
    ensures Split(line + [nl] + rest, nl) == [line] + Split(rest, nl)
  {
    var s := line + [nl] + rest;
    IndexOfUnique(line, nl, rest);
    assert s[..|line|] == line && s[|line| + 1..] == rest;
  }

  lemma {:induction false} SplitText<T>(lines: seq<seq<T>>, nl: T)
    requires NoneIn(lines, nl)
    ensures Split(Text(lines, nl), nl) == lines
  {
    if lines != [] {
      assert lines[0] in lines && forall l :: l in lines[1..] ==> l in lines;
      SplitText(lines[1..], nl);
      SplitHead(lines[0], nl, Text(lines[1..], nl));
    }
  }

  // The first line of a file that has a newline, and what comes after it.
  lemma {:induction false} FirstLine<T>(s: seq<T>, nl: T) returns (line: seq<T>, rest: seq<T>)
    requires nl in s
    ensures s == line + [nl] + rest && nl !in line
    ensures Split(s, nl) == [line] + Split(rest, nl)
  {
    var n := IndexOf(s, nl);
    assert n < |s| by { assert s[..|s|] == s; }
    line, rest := s[..n], s[n + 1..];
  }

  lemma {:induction false} OnlyLine<T>(s: seq<T>, nl: T)
    requires nl !in s && s != []
    ensures Split(s, nl) == [s]
  {
    assert IndexOf(s, nl) == |s|;
  }

  lemma {:induction false} CleanRest<T>(line: seq<T>, nl: T, rest: seq<T>)
    ensures Clean(line + [nl] + rest, nl) <==> Clean(rest, nl)
  {
    if rest != [] {
      assert (line + [nl] + rest)[|line| + |rest|] == rest[|rest| - 1];
    }
  }

  /** After a newline, splitting starts afresh. */
  lemma {:induction false} SplitConcat<T>(a: seq<T>, b: seq<T>, nl: T)
    requires Clean(a, nl)
    ensures Split(a + b, nl) == Split(a, nl) + Split(b, nl)
    decreases |a|
  {
    if a == [] {
      assert a + b == b;
    } else {
      assert a[|a| - 1] in a;
      var line, rest := FirstLine(a, nl);
      CleanRest(line, nl, rest);
      SplitConcat(rest, b, nl);
      SplitConcatStep(line, rest, b, nl);
    }
  }

  lemma {:induction false} Reassociate<T>(a: seq<T>, b: seq<T>, c: seq<T>, d: seq<T>)
    ensures a + b + c + d == a + b + (c + d)
  {
  }

  lemma {:induction false} SplitConcatStep<T>(line: seq<T>, rest: seq<T>, b: seq<T>, nl: T)
    requires nl !in line && Split(rest + b, nl) == Split(rest, nl) + Split(b, nl)
    ensures Split(line + [nl] + rest + b, nl) == Split(line + [nl] + rest, nl) + Split(b, nl)
  {
    Reassociate(line, [nl], rest, b);
    calc {
      Split(line + [nl] + rest + b, nl);
      Split(line + [nl] + (rest + b), nl);
      { SplitHead(line, nl, rest + b); }
      [line] + (Split(rest, nl) + Split(b, nl));
      [line] + Split(rest, nl) + Split(b, nl);
      { SplitHead(line, nl, rest); }
      Split(line + [nl] + rest, nl) + Split(b, nl);
    }
  }

  /** Terminating an unterminated last line changes no line. */
  lemma {:induction false} SplitTerminated<T>(a: seq<T>, nl: T)
    requires !Clean(a, nl)
    ensures Split(a + [nl], nl) == Split(a, nl)
    decreases |a|
  {
    if nl !in a {
      OnlyLine(a, nl);
      SplitHead(a, nl, []);
      assert a + [nl] == a + [nl] + [];
    } else {
      var line, rest := FirstLine(a, nl);
      CleanRest(line, nl, rest);
      SplitTerminated(rest, nl);
      SplitHead(line, nl, rest + [nl]);
      assert a + [nl] == line + [nl] + (rest + [nl]);
    }
  }

  // The lines before the cut are kept, and the line cut into leaves a prefix.
  ghost predicate CutShort<T>(cut: seq<seq<T>>, all: seq<seq<T>>) {
    && |cut| <= |all|
    && (cut != [] ==> cut[..|cut| - 1] == all[..|cut| - 1] && cut[|cut| - 1] <= all[|cut| - 1])
  }

  lemma {:induction false} CutShortCons<T>(line: seq<T>, cut: seq<seq<T>>, all: seq<seq<T>>)
    requires CutShort(cut, all)
    ensures CutShort([line] + cut, [line] + all)
  {
    if cut != [] {
      assert ([line] + cut)[..|cut|] == [line] + cut[..|cut| - 1];
      assert ([line] + all)[..|cut|] == [line] + all[..|cut| - 1];
    }
  }

  /** Cutting a file short. */
  lemma {:induction false} SplitTruncated<T>(a: seq<T>, k: nat, nl: T)
    requires k <= |a|
    ensures CutShort(Split(a[..k], nl), Split(a, nl))
    decreases |a|
  {
    if k == 0 {
    } else if nl !in a {
      OnlyLine(a, nl);
      OnlyLine(a[..k], nl);
    } else {
      var line, rest := FirstLine(a, nl);
      if k <= |line| {
        assert a[..k] == line[..k];
        OnlyLine(line[..k], nl);
      } else {
        var j := k - |line| - 1;
        SplitTruncated(rest, j, nl);
        assert a[..k] == line + [nl] + rest[..j];
        SplitHead(line, nl, rest[..j]);
        CutShortCons(line, Split(rest[..j], nl), Split(rest, nl));
      }
    }
  }
}
