/** Sequence vocabulary shared by the queue, index and query modules. */
module Seqs {

  function Map<A, B>(f: A -> B, xs: seq<A>): (ys: seq<B>)
    ensures |ys| == |xs|
    ensures forall i :: 0 <= i < |xs| ==> ys[i] == f(xs[i])
  {
    seq(|xs|, i requires 0 <= i < |xs| => f(xs[i]))
  }

  lemma {:induction false} MapConcat<A, B>(f: A -> B, xs: seq<A>, ys: seq<A>)
    ensures Map(f, xs + ys) == Map(f, xs) + Map(f, ys)
  {
  }

  // ----- the elements with a given key, in order -----

  function Select<T, K(==)>(xs: seq<T>, key: T -> K, k: K): seq<T> {
    if xs == [] then []
    else if key(xs[0]) == k then [xs[0]] + Select(xs[1..], key, k)
    else Select(xs[1..], key, k)
  }

  lemma {:induction false} SelectConcat<T, K>(xs: seq<T>, ys: seq<T>, key: T -> K, k: K)
    ensures Select(xs + ys, key, k) == Select(xs, key, k) + Select(ys, key, k)
  {
    if xs == [] {
      assert xs + ys == ys;
    } else {
      assert (xs + ys)[1..] == xs[1..] + ys;
      SelectConcat(xs[1..], ys, key, k);
    }
  }

  lemma {:induction false} SelectIn<T, K>(xs: seq<T>, key: T -> K, k: K)
    ensures forall x :: x in Select(xs, key, k) ==> x in xs && key(x) == k
    ensures forall x :: x in xs && key(x) == k ==> x in Select(xs, key, k)
    ensures |Select(xs, key, k)| <= |xs|
  {
    if xs != [] {
      SelectIn(xs[1..], key, k);
      assert xs == [xs[0]] + xs[1..];
    }
  }

  // When every element has the key, or none has.
  lemma {:induction false} SelectAll<T, K>(xs: seq<T>, key: T -> K, k: K)
    requires forall x :: x in xs ==> key(x) == k
    ensures Select(xs, key, k) == xs
  {
    if xs != [] {
      assert xs == [xs[0]] + xs[1..];
      SelectAll(xs[1..], key, k);
    }
  }

  lemma {:induction false} SelectNone<T, K>(xs: seq<T>, key: T -> K, k: K)
    requires forall x :: x in xs ==> key(x) != k
    ensures Select(xs, key, k) == []
  {
    if xs != [] {
      SelectNone(xs[1..], key, k);
    }
  }

  // A finer selection may be taken out of a coarser one.
  lemma {:induction false} SelectRefine<T, K, L>(xs: seq<T>, coarse: T -> K, c: K, fine: T -> L, f: L)
    requires forall x :: x in xs && fine(x) == f ==> coarse(x) == c
    ensures Select(Select(xs, coarse, c), fine, f) == Select(xs, fine, f)
  {
    if xs != [] {
      SelectRefine(xs[1..], coarse, c, fine, f);
      if coarse(xs[0]) == c {
        assert Select(xs, coarse, c)[1..] == Select(xs[1..], coarse, c);
      } else {
        assert xs[0] in xs;
      }
    }
  }

  lemma {:induction false} SelectMap<A, B, K>(f: A -> B, xs: seq<A>, keyA: A -> K, keyB: B -> K, k: K)
    requires forall x :: x in xs ==> (keyB(f(x)) == k <==> keyA(x) == k)
    ensures Select(Map(f, xs), keyB, k) == Map(f, Select(xs, keyA, k))
  {
    if xs != [] {
      assert Map(f, xs) == [f(xs[0])] + Map(f, xs[1..]);
      assert xs[0] in xs;
      SelectMap(f, xs[1..], keyA, keyB, k);
    }
  }

  // The selections, taken together, hold every element as often as the sequence does.
  lemma {:induction false} SelectMultiplicity<T, K>(xs: seq<T>, key: T -> K, x: T)
    ensures multiset(Select(xs, key, key(x)))[x] == multiset(xs)[x]
  {
    if xs != [] {
      SelectMultiplicity(xs[1..], key, x);
      assert xs == [xs[0]] + xs[1..];
    }
  }

  lemma {:induction false} SelectsDetermine<T, K(!new)>(xs: seq<T>, ys: seq<T>, key: T -> K)
    requires forall k :: Select(xs, key, k) == Select(ys, key, k)
    ensures multiset(xs) == multiset(ys)
  {
    forall x | x in multiset(xs) + multiset(ys)
      ensures multiset(xs)[x] == multiset(ys)[x]
    {
      SelectMultiplicity(xs, key, x);
      SelectMultiplicity(ys, key, x);
      assert Select(xs, key, key(x)) == Select(ys, key, key(x));
    }
    assert multiset(xs) <= multiset(ys) <= multiset(xs);
  }

  // ----- no key twice -----

  ghost predicate Distinct<T, K>(xs: seq<T>, key: T -> K) {
    forall i, j :: 0 <= i < j < |xs| ==> key(xs[i]) != key(xs[j])
  }

  lemma {:induction false} DistinctOnce<T, K>(xs: seq<T>, key: T -> K, k: K)
    requires Distinct(xs, key)
    ensures |Select(xs, key, k)| <= 1
  {
    if xs != [] {
      if key(xs[0]) == k {
        SelectNone(xs[1..], key, k);
      } else {
        DistinctOnce(xs[1..], key, k);
      }
    }
  }

  lemma {:induction false} TwiceSelected<T, K>(xs: seq<T>, key: T -> K, i: nat, j: nat)
    requires i < j < |xs| && key(xs[i]) == key(xs[j])
    ensures |Select(xs, key, key(xs[i]))| >= 2
  {
    var k := key(xs[i]);
    assert xs == xs[..j] + xs[j..];
    SelectConcat(xs[..j], xs[j..], key, k);
    SelectIn(xs[..j], key, k);
    assert xs[..j][i] in xs[..j];
    assert xs[i] in Select(xs[..j], key, k);
  }

  lemma {:induction false} OnceDistinct<T, K>(xs: seq<T>, key: T -> K)
    requires forall k :: |Select(xs, key, k)| <= 1
    ensures Distinct(xs, key)
  {
    forall i, j | 0 <= i < j < |xs| ensures key(xs[i]) != key(xs[j]) {
      var k := key(xs[i]);
      assert |Select(xs, key, k)| <= 1;
      if k == key(xs[j]) {
        TwiceSelected(xs, key, i, j);
      }
    }
  }

  // ----- subsequences -----

  ghost predicate Subseq<T>(xs: seq<T>, ys: seq<T>) {
    if ys == [] then xs == []
    else Subseq(xs, ys[1..]) || (xs != [] && xs[0] == ys[0] && Subseq(xs[1..], ys[1..]))
  }

  lemma {:induction false} SubseqRefl<T>(xs: seq<T>)
    ensures Subseq(xs, xs)
  {
    if xs != [] {
      SubseqRefl(xs[1..]);
    }
  }

  lemma {:induction false} SubseqNil<T>(xs: seq<T>)
    ensures Subseq([], xs)
  {
    if xs != [] {
      SubseqNil(xs[1..]);
    }
  }

  lemma {:induction false} SubseqTrans<T>(xs: seq<T>, ys: seq<T>, zs: seq<T>)
    requires Subseq(xs, ys) && Subseq(ys, zs)
    ensures Subseq(xs, zs)
    decreases |zs|, |ys|
  {
    if zs != [] {
      if Subseq(ys, zs[1..]) {
        SubseqTrans(xs, ys, zs[1..]);
      } else if Subseq(xs, ys[1..]) {
        SubseqTrans(xs, ys[1..], zs[1..]);
      } else {
        SubseqTrans(xs[1..], ys[1..], zs[1..]);
      }
    }
  }

  lemma {:induction false} SubseqConcat<T>(xs: seq<T>, ys: seq<T>, us: seq<T>, vs: seq<T>)
    requires Subseq(xs, us) && Subseq(ys, vs)
    ensures Subseq(xs + ys, us + vs)
  {
    if us == [] {
      assert xs + ys == ys && us + vs == vs;
    } else {
      assert (us + vs)[1..] == us[1..] + vs;
      if Subseq(xs, us[1..]) {
        SubseqConcat(xs, ys, us[1..], vs);
      } else {
        SubseqConcat(xs[1..], ys, us[1..], vs);
        assert (xs + ys)[1..] == xs[1..] + ys;
      }
    }
  }

  lemma {:induction false} SubseqLength<T>(xs: seq<T>, ys: seq<T>)
    requires Subseq(xs, ys)
    ensures |xs| <= |ys|
    ensures |xs| == |ys| ==> xs == ys
    ensures multiset(xs) <= multiset(ys)
  {
    if ys != [] {
      assert ys == [ys[0]] + ys[1..];
      if Subseq(xs, ys[1..]) {
        SubseqLength(xs, ys[1..]);
      } else {
        assert xs == [xs[0]] + xs[1..];
        SubseqLength(xs[1..], ys[1..]);
      }
    }
  }

  lemma {:induction false} SubseqSelect<T, K>(xs: seq<T>, ys: seq<T>, key: T -> K, k: K)
    requires Subseq(xs, ys)
    ensures Subseq(Select(xs, key, k), Select(ys, key, k))
  {
    if ys != [] {
      var zs := Select(ys[1..], key, k);
      if Subseq(xs, ys[1..]) {
        SubseqSelect(xs, ys[1..], key, k);
        if key(ys[0]) == k {
          assert Select(ys, key, k)[1..] == zs;
        }
      } else {
        SubseqSelect(xs[1..], ys[1..], key, k);
        if key(ys[0]) == k {
          assert Select(ys, key, k)[1..] == zs;
          assert Select(xs, key, k)[1..] == Select(xs[1..], key, k);
        }
      }
    }
  }

  lemma {:induction false} SubseqMap<A, B>(f: A -> B, xs: seq<A>, ys: seq<A>)
    requires Subseq(xs, ys)
    ensures Subseq(Map(f, xs), Map(f, ys))
  {
    if ys != [] {
      assert Map(f, ys)[1..] == Map(f, ys[1..]);
      if Subseq(xs, ys[1..]) {
        SubseqMap(f, xs, ys[1..]);
      } else {
        SubseqMap(f, xs[1..], ys[1..]);
        assert Map(f, xs)[1..] == Map(f, xs[1..]);
      }
    }
  }

  // ----- grouping, as a loop over `dict.setdefault(key, []).append(x)` does it -----

  // Distinct keys in order of first occurrence.
  function FirstKeys<T, K(==)>(xs: seq<T>, key: T -> K): (ks: seq<K>)
    ensures forall i, j :: 0 <= i < j < |ks| ==> ks[i] != ks[j]
    ensures forall x :: x in xs ==> key(x) in ks
    ensures forall k :: k in ks ==> exists x :: x in xs && key(x) == k
    ensures xs != [] ==> ks != []
  {
    if xs == [] then []
    else
      var n := |xs| - 1;
      var ks := FirstKeys(xs[..n], key);
      assert xs == xs[..n] + [xs[n]];
      if key(xs[n]) in ks then ks else ks + [key(xs[n])]
  }

  /** What comes later only adds keys at the end. */
  lemma {:induction false} FirstKeysGrow<T, K>(xs: seq<T>, ys: seq<T>, key: T -> K)
    ensures FirstKeys(xs, key) <= FirstKeys(xs + ys, key)
  {
    hide FirstKeys;
    if ys == [] {
      assert xs + ys == xs;
    } else {
      var n := |ys| - 1;
      FirstKeysGrow(xs, ys[..n], key);
      FirstKeysSnoc(xs + ys[..n], ys[n], key);
      assert xs + ys == xs + ys[..n] + [ys[n]];
    }
  }

  lemma {:induction false} FirstKeysSnoc<T, K>(xs: seq<T>, x: T, key: T -> K)
    ensures FirstKeys(xs, key) <= FirstKeys(xs + [x], key)
  {
    assert (xs + [x])[..|xs|] == xs;
  }

  datatype Batch<+K, +T> = Batch(key: K, items: seq<T>)

  function BatchesFor<T, K(==)>(xs: seq<T>, key: T -> K, ks: seq<K>): (bs: seq<Batch<K, T>>)
    ensures |bs| == |ks|
    ensures forall i :: 0 <= i < |ks| ==> bs[i] == Batch(ks[i], Select(xs, key, ks[i]))
  {
    seq(|ks|, i requires 0 <= i < |ks| => Batch(ks[i], Select(xs, key, ks[i])))
  }

  function GroupBy<T, K(==)>(xs: seq<T>, key: T -> K): seq<Batch<K, T>> {
    BatchesFor(xs, key, FirstKeys(xs, key))
  }

  function Items<T, K>(bs: seq<Batch<K, T>>): seq<T> {
    if bs == [] then [] else bs[0].items + Items(bs[1..])
  }

  lemma {:induction false} SelectBatches<T, K>(xs: seq<T>, key: T -> K, ks: seq<K>, k: K)
    requires forall i, j :: 0 <= i < j < |ks| ==> ks[i] != ks[j]
    ensures Select(Items(BatchesFor(xs, key, ks)), key, k) == if k in ks then Select(xs, key, k) else []
  {
    if ks != [] {
      var bs := BatchesFor(xs, key, ks);
      assert bs[1..] == BatchesFor(xs, key, ks[1..]);
      SelectBatches(xs, key, ks[1..], k);
      SelectConcat(bs[0].items, Items(bs[1..]), key, k);
      var items := Select(xs, key, ks[0]);
      SelectIn(xs, key, ks[0]);
      assert bs[0].items == items;
      if ks[0] == k {
        SelectAll(items, key, k);
        assert k !in ks[1..];
      } else {
        SelectNone(items, key, k);
      }
    }
  }

  /** Grouping keeps, for every key, exactly the elements with that key, in order. */
  lemma {:induction false} GroupByKeepsOrder<T, K>(xs: seq<T>, key: T -> K, k: K)
    ensures Select(Items(GroupBy(xs, key)), key, k) == Select(xs, key, k)
  {
    SelectBatches(xs, key, FirstKeys(xs, key), k);
    if k !in FirstKeys(xs, key) {
      SelectNone(xs, key, k);
    }
  }

  lemma {:induction false} GroupByMultiset<T, K(!new)>(xs: seq<T>, key: T -> K)
    ensures multiset(Items(GroupBy(xs, key))) == multiset(xs)
  {
    forall k ensures Select(Items(GroupBy(xs, key)), key, k) == Select(xs, key, k) {
      GroupByKeepsOrder(xs, key, k);
    }
    SelectsDetermine(Items(GroupBy(xs, key)), xs, key);
  }

  lemma {:induction false} SelectSnoc<T, K>(xs: seq<T>, i: nat, key: T -> K, k: K)
    requires i < |xs|
    ensures Select(xs[..i + 1], key, k) == Select(xs[..i], key, k) + if key(xs[i]) == k then [xs[i]] else []
  {
    assert xs[..i + 1] == xs[..i] + [xs[i]];
    SelectConcat(xs[..i], [xs[i]], key, k);
  }

  // What the dictionary holds after xs: the keys in insertion order, and each key's list.
  ghost predicate Grouped<T, K>(order: seq<K>, groups: map<K, seq<T>>, xs: seq<T>, key: T -> K) {
    && order == FirstKeys(xs, key)
    && (forall k :: k in groups ==> k in order)
    && (forall k :: k in order ==> k in groups)
    && (forall k :: k in groups ==> groups[k] == Select(xs, key, k))
  }

  lemma {:induction false} GroupStep<T, K>(order: seq<K>, groups: map<K, seq<T>>, xs: seq<T>, i: nat, key: T -> K, k: K)
    requires i < |xs| && Grouped(order, groups, xs[..i], key) && k == key(xs[i])
    ensures k in groups ==> Grouped(order, groups[k := groups[k] + [xs[i]]], xs[..i + 1], key)
    ensures k !in groups ==> Grouped(order + [k], groups[k := [xs[i]]], xs[..i + 1], key)
  {
    assert xs[..i + 1][..i] == xs[..i];
    var order' := if k in groups then order else order + [k];
    var groups' := groups[k := if k in groups then groups[k] + [xs[i]] else [xs[i]]];
    assert order' == FirstKeys(xs[..i + 1], key);
    forall c | c in groups' ensures groups'[c] == Select(xs[..i + 1], key, c) {
      SelectSnoc(xs, i, key, c);
      if c == k && k !in groups {
        SelectNone(xs[..i], key, k);
      }
    }
  }

  lemma {:induction false} GroupNothing<T, K>(key: T -> K)
    ensures Grouped<T, K>([], map[], [], key)
  {
  }

  /** The loop itself: a dictionary of lists in insertion order. */
  method GroupInto<T, K(==)>(xs: seq<T>, key: T -> K) returns (order: seq<K>, groups: map<K, seq<T>>)
    ensures Grouped(order, groups, xs, key)
  {
    order, groups := [], map[];
    GroupNothing(key);
    hide Grouped, FirstKeys, Select;
    for i := 0 to |xs|
      invariant Grouped(order, groups, xs[..i], key)
    {
      var k := key(xs[i]);
      GroupStep(order, groups, xs, i, key, k);
      if k in groups {
        groups := groups[k := groups[k] + [xs[i]]];
      } else {
        order, groups := order + [k], groups[k := [xs[i]]];
      }
    }
    assert xs[..|xs|] == xs;
  }
}
