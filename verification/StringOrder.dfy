/** Lists keyed by strings and sorted by code points. */
module StringOrder {

  datatype Keyed<+T> = Keyed(key: string, value: T)

  /** `a < b` on strings. */
  predicate Less(a: string, b: string) {
    b != "" && (a == "" || a[0] < b[0] || (a[0] == b[0] && Less(a[1..], b[1..])))
  }

  /** Up to position `i` the strings are the same; there `a` ends before `b` does, or has the smaller character. */
  ghost predicate PartsAt(a: string, b: string, i: int) {
    && 0 <= i <= |a| && i < |b| && (forall k :: 0 <= k < i ==> a[k] == b[k]) && (i < |a| ==> a[i] < b[i])
  }

  ghost predicate Before(a: string, b: string) {
    exists i :: PartsAt(a, b, i)
  }

  /** What the order is: that of the first difference, a proper prefix coming first. */
  lemma {:induction false} LessIff(a: string, b: string)
    ensures Less(a, b) <==> Before(a, b)
  {
    if a == "" {
      assert b != "" ==> PartsAt(a, b, 0);
    } else if b != "" && a[0] == b[0] {
      LessIff(a[1..], b[1..]);
      if i :| PartsAt(a[1..], b[1..], i) {
        assert PartsAt(a, b, i + 1);
      }
      if i :| PartsAt(a, b, i) {
        assert i > 0;
        assert PartsAt(a[1..], b[1..], i - 1);
      }
    } else if b != "" {
      assert Less(a, b) ==> PartsAt(a, b, 0);
      assert forall i :: PartsAt(a, b, i) ==> i == 0;
    }
  }

  /** The keys ascend in that order. */
  ghost predicate Ascends<T>(xs: seq<Keyed<T>>) {
    forall i, j :: 0 <= i < j < |xs| ==> Before(xs[i].key, xs[j].key)
  }

  lemma SortedAscends<T>(xs: seq<Keyed<T>>)
    ensures Sorted(xs) <==> Ascends(xs)
  {
    forall i, j | 0 <= i < j < |xs|
      ensures Less(xs[i].key, xs[j].key) <==> Before(xs[i].key, xs[j].key)
    {
      LessIff(xs[i].key, xs[j].key);
    }
    hide Less, Before;
  }

  lemma {:induction false} LessIrreflexive(a: string)
    ensures !Less(a, a)
  {
    if a != "" {
      LessIrreflexive(a[1..]);
    }
  }

  lemma {:induction false} LessTransitive(a: string, b: string, c: string)
    requires Less(a, b) && Less(b, c)
    ensures Less(a, c)
  {
    if a != "" && a[0] == b[0] && b[0] == c[0] {
      LessTransitive(a[1..], b[1..], c[1..]);
    }
  }

  lemma {:induction false} LessTotal(a: string, b: string)
    ensures Less(a, b) || a == b || Less(b, a)
  {
    if a != "" && b != "" && a[0] == b[0] {
      LessTotal(a[1..], b[1..]);
      assert a == [a[0]] + a[1..] && b == [b[0]] + b[1..];
    }
  }

  ghost predicate DistinctKeys<T>(xs: seq<Keyed<T>>) {
    forall i, j :: 0 <= i < j < |xs| ==> xs[i].key != xs[j].key
  }

  ghost predicate Sorted<T>(xs: seq<Keyed<T>>) {
    forall i, j :: 0 <= i < j < |xs| ==> Less(xs[i].key, xs[j].key)
  }

  predicate HasKey<T>(xs: seq<Keyed<T>>, key: string) {
    exists i :: 0 <= i < |xs| && xs[i].key == key
  }

  function Insert<T>(xs: seq<Keyed<T>>, x: Keyed<T>): seq<Keyed<T>> {
    if xs == [] || Less(x.key, xs[0].key) then [x] + xs else [xs[0]] + Insert(xs[1..], x)
  }

  /** A stable sort by key. */
  function Sort<T>(xs: seq<Keyed<T>>): seq<Keyed<T>> {
    if xs == [] then [] else Insert(Sort(xs[..|xs| - 1]), xs[|xs| - 1])
  }

  lemma {:induction false} InsertPermutes<T>(xs: seq<Keyed<T>>, x: Keyed<T>)
    ensures multiset(Insert(xs, x)) == multiset(xs) + multiset{x}
  {
    if xs != [] && !Less(x.key, xs[0].key) {
      InsertPermutes(xs[1..], x);
      assert xs == [xs[0]] + xs[1..];
    }
  }

  lemma {:induction false} InsertSorts<T>(xs: seq<Keyed<T>>, x: Keyed<T>)
    requires Sorted(xs) && !HasKey(xs, x.key)
    ensures Sorted(Insert(xs, x))
  {
    if xs == [] {
    } else if Less(x.key, xs[0].key) {
      forall i | 0 <= i < |xs|
        ensures Less(x.key, xs[i].key)
      {
        if i > 0 {
          LessTransitive(x.key, xs[0].key, xs[i].key);
        }
      }
    } else {
      var rest, t := xs[1..], Insert(xs[1..], x);
      assert forall i :: 0 <= i < |rest| ==> rest[i] == xs[i + 1];
      InsertSorts(rest, x);
      InsertPermutes(rest, x);
      assert xs[0].key != x.key;
      LessTotal(x.key, xs[0].key);
      forall i | 0 <= i < |t|
        ensures Less(xs[0].key, t[i].key)
      {
        assert t[i] in multiset(t);
        if t[i] in rest {
          var j :| 0 <= j < |rest| && rest[j] == t[i];
          assert xs[j + 1] == t[i];
        } else {
          assert t[i] == x;
        }
      }
    }
  }

  /** Sorting a list with distinct keys permutes it into sorted order. */
  lemma {:induction false} SortSorts<T>(xs: seq<Keyed<T>>)
    ensures multiset(Sort(xs)) == multiset(xs)
    ensures DistinctKeys(xs) ==> Sorted(Sort(xs))
  {
    if xs != [] {
      var init, last := xs[..|xs| - 1], xs[|xs| - 1];
      SortSorts(init);
      InsertPermutes(Sort(init), last);
      assert xs == init + [last];
      if DistinctKeys(xs) {
        forall i | 0 <= i < |Sort(init)|
          ensures Sort(init)[i].key != last.key
        {
          assert Sort(init)[i] in multiset(Sort(init));
          assert Sort(init)[i] in init;
          var j :| 0 <= j < |init| && init[j] == Sort(init)[i];
          assert xs[j].key != xs[|xs| - 1].key;
        }
        InsertSorts(Sort(init), last);
      }
    }
  }

  lemma SortElements<T>(xs: seq<Keyed<T>>, x: Keyed<T>)
    ensures x in Sort(xs) <==> x in xs
  {
    SortSorts(xs);
    assert x in multiset(Sort(xs)) <==> x in multiset(xs);
  }

  lemma TailMultiset<T>(xs: seq<Keyed<T>>)
    requires xs != []
    ensures multiset(xs[1..]) == multiset(xs) - multiset{xs[0]}
  {
    assert xs == [xs[0]] + xs[1..];
  }

  lemma SameFirst<T>(xs: seq<Keyed<T>>, ys: seq<Keyed<T>>)
    requires Sorted(xs) && Sorted(ys) && multiset(xs) == multiset(ys) && xs != [] && ys != []
    ensures xs[0] == ys[0]
  {
    assert xs[0] in multiset(ys) && ys[0] in multiset(xs);
    var i :| 0 <= i < |ys| && ys[i] == xs[0];
    var j :| 0 <= j < |xs| && xs[j] == ys[0];
    if i > 0 && j > 0 {
      LessTransitive(xs[0].key, ys[0].key, xs[0].key);
      LessIrreflexive(xs[0].key);
    }
  }

  /** There is only one sorted permutation of a list. */
  lemma {:induction false} SortedUnique<T>(xs: seq<Keyed<T>>, ys: seq<Keyed<T>>)
    requires Sorted(xs) && Sorted(ys) && multiset(xs) == multiset(ys)
    ensures xs == ys
    decreases |xs|
  {
    hide Less;
    assert |xs| == |multiset(xs)| == |ys|;
    if xs != [] {
      SameFirst(xs, ys);
      TailMultiset(xs);
      TailMultiset(ys);
      SortedUnique(xs[1..], ys[1..]);
      assert xs == [xs[0]] + xs[1..] && ys == [ys[0]] + ys[1..];
    }
  }

  lemma SortedDistinct<T>(xs: seq<Keyed<T>>)
    requires Sorted(xs)
    ensures DistinctKeys(xs)
  {
    forall i, j | 0 <= i < j < |xs|
      ensures xs[i].key != xs[j].key
    {
      LessIrreflexive(xs[i].key);
    }
  }

  /** Permutations of a list with distinct keys have the same sorted form. */
  lemma SortOfPermutations<T>(xs: seq<Keyed<T>>, ys: seq<Keyed<T>>)
    requires DistinctKeys(xs) && DistinctKeys(ys) && multiset(xs) == multiset(ys)
    ensures Sort(xs) == Sort(ys)
  {
    SortSorts(xs);
    SortSorts(ys);
    SortedUnique(Sort(xs), Sort(ys));
  }

  lemma SameKeySameIndex<T>(xs: seq<Keyed<T>>, i: nat, j: nat)
    requires DistinctKeys(xs) && i < |xs| && j < |xs| && xs[i].key == xs[j].key
    ensures i == j
  {
  }

  /** One unfolding of `Sort`. */
  lemma SortSnoc<T>(init: seq<Keyed<T>>, last: Keyed<T>)
    ensures Sort(init + [last]) == Insert(Sort(init), last)
  {
    hide Insert;
    assert (init + [last])[..|init|] == init;
  }

  lemma {:induction false} DistinctCount<T>(xs: seq<Keyed<T>>, x: Keyed<T>)
    requires DistinctKeys(xs)
    ensures multiset(xs)[x] == if x in xs then 1 else 0
  {
    if xs != [] {
      var rest := xs[1..];
      DistinctCount(rest, x);
      assert xs == [xs[0]] + rest;
      assert forall i :: 0 <= i < |rest| ==> rest[i] == xs[i + 1] && xs[0].key != xs[i + 1].key;
    }
  }

  /** Lists with distinct keys that hold the same elements sort to the same list. */
  lemma SortOfSameElements<T>(xs: seq<Keyed<T>>, ys: seq<Keyed<T>>)
    requires DistinctKeys(xs) && DistinctKeys(ys) && forall x :: x in xs <==> x in ys
    ensures Sort(xs) == Sort(ys)
  {
    forall x: Keyed<T>
      ensures multiset(xs)[x] == multiset(ys)[x]
    {
      DistinctCount(xs, x);
      DistinctCount(ys, x);
    }
    assert multiset(xs) == multiset(ys);
    SortOfPermutations(xs, ys);
  }
}
