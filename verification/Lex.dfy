/** Strings compared the way Python compares them: code point by code point.
    Also the decimal renderings that `strftime` and `%` formatting produce. */
module Lex {

  predicate Lt(a: string, b: string) {
    b != [] && (a == [] || a[0] < b[0] || (a[0] == b[0] && Lt(a[1..], b[1..])))
  }

  predicate Leq(a: string, b: string) {
    a == b || Lt(a, b)
  }

  lemma {:induction false} Trichotomy(a: string, b: string)
    ensures !(Lt(a, b) && Lt(b, a))
    ensures !(Lt(a, b) && a == b)
    ensures Lt(a, b) || a == b || Lt(b, a)
  {
    if a != [] && b != [] {
      Trichotomy(a[1..], b[1..]);
      if a[0] == b[0] && a[1..] == b[1..] {
        assert a == [a[0]] + a[1..] && b == [b[0]] + b[1..];
      }
    }
  }

  lemma {:induction false} Transitive(a: string, b: string, c: string)
    requires Lt(a, b) && Lt(b, c)
    ensures Lt(a, c)
  {
    if a != [] && a[0] == b[0] == c[0] {
      Transitive(a[1..], b[1..], c[1..]);
    }
  }

  // Fixed-width fields compare field by field.
  lemma {:induction false} FieldByField(a: string, a': string, b: string, b': string)
    requires |a| == |b|
    ensures Lt(a + a', b + b') <==> Lt(a, b) || (a == b && Lt(a', b'))
  {
    if a == [] {
      assert a + a' == a' && b + b' == b';
    } else {
      FieldByField(a[1..], a', b[1..], b');
      assert (a + a')[1..] == a[1..] + a' && (b + b')[1..] == b[1..] + b';
      assert a == [a[0]] + a[1..] && b == [b[0]] + b[1..];
    }
  }

  function Prefix(s: string, n: nat): (p: string)
    ensures |p| <= n && p <= s
  {
    if |s| <= n then s else s[..n]
  }

  // A bound cut to n characters still separates strings whose first n characters are beyond it.
  lemma {:induction false} BeyondPrefix(s: string, bound: string, n: nat)
    requires |s| >= n
    ensures Lt(s[..n], Prefix(bound, n)) ==> Lt(s, bound)
    ensures Lt(Prefix(bound, n), s[..n]) ==> Lt(bound, s)
  {
    var p := Prefix(bound, n);
    assert s == s[..n] + s[n..] && bound == p + bound[|p|..];
    if |p| == n {
      FieldByField(s[..n], s[n..], p, bound[n..]);
      FieldByField(p, bound[n..], s[..n], s[n..]);
    } else {
      assert p == bound;
      ProperPrefix(s[..n], s[n..], bound);
    }
  }

  lemma {:induction false} ProperPrefix(a: string, a': string, b: string)
    requires |b| < |a|
    ensures Lt(a, b) ==> Lt(a + a', b)
    ensures Lt(b, a) ==> Lt(b, a + a')
  {
    if b != [] {
      assert (a + a')[1..] == a[1..] + a';
      ProperPrefix(a[1..], a', b[1..]);
    }
  }

  // ----- decimals -----

  function Digit(d: nat): (c: char)
    requires d < 10
  {
    (48 + d) as char
  }

  /** Zero-padded to a fixed width, as `%02d`. */
  function Pad(n: nat, width: nat): (s: string)
    ensures |s| == width
  {
    if width == 0 then [] else Pad(n / 10, width - 1) + [Digit(n % 10)]
  }

  /** No padding, as `str(n)` and as glibc renders `%Y`. */
  function Dec(n: nat): (s: string)
    ensures |s| >= 1
  {
    if n < 10 then [Digit(n)] else Dec(n / 10) + [Digit(n % 10)]
  }

  function Pow10(k: nat): nat {
    if k == 0 then 1 else 10 * Pow10(k - 1)
  }

  lemma {:induction false} PadOrder(n: nat, m: nat, width: nat)
    requires n < Pow10(width) && m < Pow10(width)
    ensures Lt(Pad(n, width), Pad(m, width)) <==> n < m
    ensures Pad(n, width) == Pad(m, width) <==> n == m
    decreases width
  {
    if width > 0 {
      PadOrder(n / 10, m / 10, width - 1);
      FieldByField(Pad(n / 10, width - 1), [Digit(n % 10)], Pad(m / 10, width - 1), [Digit(m % 10)]);
      Trichotomy(Pad(n, width), Pad(m, width));
      Trichotomy(Pad(m, width), Pad(n, width));
      FieldByField(Pad(m / 10, width - 1), [Digit(m % 10)], Pad(n / 10, width - 1), [Digit(n % 10)]);
      PadOrder(m / 10, n / 10, width - 1);
    }
  }

  lemma {:induction false} DecIsPad(n: nat, width: nat)
    requires width >= 1 && n < Pow10(width) && (width == 1 || n >= Pow10(width - 1))
    ensures Dec(n) == Pad(n, width)
  {
    if width == 1 {
      assert Pow10(1) == 10;
      assert Pad(n / 10, 0) == [];
    } else {
      assert Pow10(width) == 10 * Pow10(width - 1);
      if width > 2 { assert Pow10(width - 1) == 10 * Pow10(width - 2); } else { assert Pow10(1) == 10; }
      DecIsPad(n / 10, width - 1);
    }
  }

  lemma {:induction false} PadHasNo(n: nat, width: nat, c: char)
    requires c < '0' || c > '9'
    ensures c !in Pad(n, width)
  {
    if width > 0 {
      PadHasNo(n / 10, width - 1, c);
    }
  }

  // ----- reading them back -----

  predicate AllDigits(s: string) {
    forall i :: 0 <= i < |s| ==> '0' <= s[i] <= '9'
  }

  function Number(s: string): nat
    requires AllDigits(s)
  {
    if s == [] then 0 else
      Number(s[..|s| - 1]) * 10 + (s[|s| - 1] as int - 48)
  }

  lemma {:induction false} PadOfNumber(s: string)
    requires AllDigits(s)
    ensures Pad(Number(s), |s|) == s
  {
    if s != [] {
      var n := |s| - 1;
      PadOfNumber(s[..n]);
      assert s == s[..n] + [s[n]];
    }
  }

  lemma {:induction false} NumberOfPad(n: nat, width: nat)
    requires n < Pow10(width)
    ensures AllDigits(Pad(n, width)) && Number(Pad(n, width)) == n
  {
    if width > 0 {
      NumberOfPad(n / 10, width - 1);
      var p := Pad(n, width);
      assert p[..|p| - 1] == Pad(n / 10, width - 1);
    }
  }
}
