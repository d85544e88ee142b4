/** `list.sort(key=..., reverse=True)`: descending, and stable in spite of the reversal. */
module Sorting {
  import opened Seqs
  import Lex

  // x before the first element that is not greater.
  function Insert<T>(x: T, ys: seq<T>, key: T -> string): seq<T> {
    if ys != [] && Lex.Lt(key(x), key(ys[0])) then [ys[0]] + Insert(x, ys[1..], key) else [x] + ys
  }

  function SortDesc<T>(xs: seq<T>, key: T -> string): (ys: seq<T>)
    ensures |ys| == |xs|
  {
    if xs == [] then [] else
      var rest := SortDesc(xs[1..], key);
      InsertLength(xs[0], rest, key);
      Insert(xs[0], rest, key)
  }

  lemma {:induction false} InsertLength<T>(x: T, ys: seq<T>, key: T -> string)
    ensures |Insert(x, ys, key)| == |ys| + 1
  {
    if ys != [] {
      InsertLength(x, ys[1..], key);
    }
  }

  ghost predicate Descending<T>(xs: seq<T>, key: T -> string) {
    forall i, j :: 0 <= i < j < |xs| ==> !Lex.Lt(key(xs[i]), key(xs[j]))
  }

  // ----- what sorting means: three properties that leave no choice -----

  lemma {:induction false} InsertKeepsElements<T>(x: T, ys: seq<T>, key: T -> string, k: string)
    ensures multiset(Insert(x, ys, key)) == multiset([x] + ys)
    ensures Select(Insert(x, ys, key), key, k) == Select([x] + ys, key, k)
  {
    assert ([x] + ys)[1..] == ys;
    if ys != [] && Lex.Lt(key(x), key(ys[0])) {
      var rest := Insert(x, ys[1..], key);
      InsertKeepsElements(x, ys[1..], key, k);
      assert ys == [ys[0]] + ys[1..];
      assert ([ys[0]] + rest)[1..] == rest;
      assert ([x] + ys[1..])[1..] == ys[1..];
      Lex.Trichotomy(key(x), key(ys[0]));
    }
  }

  // a >= b >= c
  lemma {:induction false} AtLeastTrans(a: string, b: string, c: string)
    requires !Lex.Lt(a, b) && !Lex.Lt(b, c)
    ensures !Lex.Lt(a, c)
  {
    hide Lex.Lt;
    Lex.Trichotomy(a, b);
    if Lex.Lt(a, c) && Lex.Lt(b, a) {
      Lex.Transitive(b, a, c);
    }
  }

  lemma {:induction false} DescendingCons<T>(x: T, ys: seq<T>, key: T -> string)
    requires Descending(ys, key) && forall y :: y in ys ==> !Lex.Lt(key(x), key(y))
    ensures Descending([x] + ys, key)
  {
    hide Lex.Lt;
  }

  lemma {:induction false} InsertDescending<T>(x: T, ys: seq<T>, key: T -> string)
    requires Descending(ys, key)
    ensures Descending(Insert(x, ys, key), key)
  {
    hide Lex.Lt;
    if ys != [] && Lex.Lt(key(x), key(ys[0])) {
      var rest := Insert(x, ys[1..], key);
      InsertDescending(x, ys[1..], key);
      InsertKeepsElements(x, ys[1..], key, "");
      Lex.Trichotomy(key(x), key(ys[0]));
      forall y | y in rest ensures !Lex.Lt(key(ys[0]), key(y)) {
        assert y in multiset([x] + ys[1..]);
        assert y in [x] + ys[1..];
      }
      DescendingCons(ys[0], rest, key);
    } else {
      forall y | y in ys ensures !Lex.Lt(key(x), key(y)) {
        var j :| 0 <= j < |ys| && ys[j] == y;
        if j > 0 {
          AtLeastTrans(key(x), key(ys[0]), key(y));
        }
      }
      DescendingCons(x, ys, key);
    }
  }

  /** The result is descending, a permutation, and keeps the order of equal keys. */
  lemma {:induction false} SortSorts<T>(xs: seq<T>, key: T -> string)
    ensures Descending(SortDesc(xs, key), key)
    ensures multiset(SortDesc(xs, key)) == multiset(xs)
    ensures forall k :: Select(SortDesc(xs, key), key, k) == Select(xs, key, k)
  {
    if xs != [] {
      var rest := SortDesc(xs[1..], key);
      SortSorts(xs[1..], key);
      InsertDescending(xs[0], rest, key);
      assert xs == [xs[0]] + xs[1..];
      forall k ensures Select(SortDesc(xs, key), key, k) == Select(xs, key, k) {
        InsertKeepsElements(xs[0], rest, key, k);
        assert ([xs[0]] + rest)[1..] == rest;
      }
      InsertKeepsElements(xs[0], rest, key, "");
    }
  }

  lemma {:induction false} SortedIsFixed<T>(xs: seq<T>, key: T -> string)
    requires Descending(xs, key)
    ensures SortDesc(xs, key) == xs
  {
    if xs != [] {
      SortedIsFixed(xs[1..], key);
    }
  }

  // ----- sorting a concatenation is merging -----

  function Merge<T>(a: seq<T>, b: seq<T>, key: T -> string): seq<T> {
    if a == [] then b
    else if b == [] then a
    else if Lex.Lt(key(a[0]), key(b[0])) then [b[0]] + Merge(a, b[1..], key)
    else [a[0]] + Merge(a[1..], b, key)
  }

  lemma {:induction false} NotGreaterThenLess(a: string, x: string, b: string)
    requires !Lex.Lt(x, a) && Lex.Lt(x, b)
    ensures Lex.Lt(a, b)
  {
    Lex.Trichotomy(a, x);
    if Lex.Lt(a, x) { Lex.Transitive(a, x, b); }
  }

  lemma {:induction false} MergeInsert<T>(x: T, a: seq<T>, b: seq<T>, key: T -> string)
    ensures Merge(Insert(x, a, key), b, key) == Insert(x, Merge(a, b, key), key)
    decreases |a| + |b|
  {
    hide Lex.Lt;
    var ia := Insert(x, a, key);
    if b == [] {
    } else if a == [] {
      if Lex.Lt(key(x), key(b[0])) {
        MergeInsert(x, a, b[1..], key);
      } else {
        assert [x][1..] == [];
      }
    } else if Lex.Lt(key(x), key(a[0])) {
      assert ia[0] == a[0] && ia[1..] == Insert(x, a[1..], key);
      if Lex.Lt(key(a[0]), key(b[0])) {
        Lex.Transitive(key(x), key(a[0]), key(b[0]));
        MergeInsert(x, a, b[1..], key);
      } else {
        MergeInsert(x, a[1..], b, key);
      }
    } else {
      assert ia[0] == x && ia[1..] == a;
      if Lex.Lt(key(x), key(b[0])) {
        NotGreaterThenLess(key(a[0]), key(x), key(b[0]));
        MergeInsert(x, a, b[1..], key);
      }
    }
  }

  lemma {:induction false} SortConcat<T>(a: seq<T>, b: seq<T>, key: T -> string)
    ensures SortDesc(a + b, key) == Merge(SortDesc(a, key), SortDesc(b, key), key)
  {
    hide Insert, Merge;
    if a == [] {
      assert a + b == b;
      MergeNothing(SortDesc(b, key), key);
    } else {
      assert (a + b)[1..] == a[1..] + b;
      SortConcat(a[1..], b, key);
      MergeInsert(a[0], SortDesc(a[1..], key), SortDesc(b, key), key);
    }
  }

  lemma {:induction false} MergeNothing<T>(b: seq<T>, key: T -> string)
    ensures Merge([], b, key) == b
  {
  }

  // ----- the first n -----

  function Take<T>(xs: seq<T>, n: nat): (ys: seq<T>)
    ensures |ys| == if n < |xs| then n else |xs|
  {
    if n < |xs| then xs[..n] else xs
  }

  /** The first n of a merge need at most the first n of each side. */
  lemma {:induction false} TakeMerge<T>(n: nat, a: seq<T>, na: nat, b: seq<T>, nb: nat, key: T -> string)
    requires n <= na && n <= nb
    ensures Take(Merge(a, b, key), n) == Take(Merge(Take(a, na), Take(b, nb), key), n)
    decreases |a| + |b|
  {
    hide Lex.Lt;
    if n > 0 && a != [] && b != [] {
      var ta, tb := Take(a, na), Take(b, nb);
      assert ta[0] == a[0] && tb[0] == b[0];
      if Lex.Lt(key(a[0]), key(b[0])) {
        TakeMerge(n - 1, a, na, b[1..], nb - 1, key);
        assert tb[1..] == Take(b[1..], nb - 1);
        TakeCons(b[0], Merge(a, b[1..], key), n);
        TakeCons(b[0], Merge(ta, tb[1..], key), n);
      } else {
        TakeMerge(n - 1, a[1..], na - 1, b, nb, key);
        assert ta[1..] == Take(a[1..], na - 1);
        TakeCons(a[0], Merge(a[1..], b, key), n);
        TakeCons(a[0], Merge(ta[1..], tb, key), n);
      }
    }
  }

  lemma {:induction false} TakeCons<T>(x: T, xs: seq<T>, n: nat)
    requires n > 0
    ensures Take([x] + xs, n) == [x] + Take(xs, n - 1)
  {
  }
}
