/** `stableSorted(by:)` (RandomAccessCollection.swift): the elements are
    paired with their offsets, the pairs are sorted with a comparator that
    breaks ties between equivalent elements by offset, and the elements are
    read back. Because that comparator is a strict total order on pairs with
    distinct offsets, the sorted order of the pairs is unique
    (`AnySortAgrees`), so the model may sort them by insertion whatever
    algorithm the standard library's `sorted(by:)` uses. */
module StableSort {

  /** What `sorted(by:)` requires of `areInIncreasingOrder`: irreflexive,
      transitive, and with transitive incomparability. */
  ghost predicate StrictWeakOrder<T(!new)>(less: (T, T) -> bool) {
    && (forall x :: !less(x, x))
    && (forall x, y, z :: less(x, y) && less(y, z) ==> less(x, z))
    && (forall x, y, z :: !less(x, y) && !less(y, x) && !less(y, z) && !less(z, y) ==> !less(x, z))
  }

  /** An element of `enumerated()`. */
  datatype Pair<T> = Pair(offset: nat, element: T)

  function Enumerate<T>(a: seq<T>): (ps: seq<Pair<T>>)
    ensures |ps| == |a|
    ensures forall i :: 0 <= i < |a| ==> ps[i] == Pair(i, a[i])
  {
    seq(|a|, i requires 0 <= i < |a| => Pair(i, a[i]))
  }

  /** The comparator passed to `sorted`: the user's order, and between
      equivalent elements the smaller offset first. */
  predicate PairLess<T>(less: (T, T) -> bool, p: Pair<T>, q: Pair<T>) {
    if less(p.element, q.element) then true
    else if less(q.element, p.element) then false
    else p.offset < q.offset
  }

  /** `map(\.element)` */
  function Elements<T>(ps: seq<Pair<T>>): (xs: seq<T>)
    ensures |xs| == |ps| && forall i :: 0 <= i < |ps| ==> xs[i] == ps[i].element
  {
    if |ps| == 0 then [] else [ps[0].element] + Elements(ps[1..])
  }

  function Offsets<T>(ps: seq<Pair<T>>): (os: seq<nat>)
    ensures |os| == |ps| && forall i :: 0 <= i < |ps| ==> os[i] == ps[i].offset
  {
    seq(|ps|, i requires 0 <= i < |ps| => ps[i].offset)
  }

  /** Inserts `p` before the first pair it precedes. */
  function Insert<T>(less: (T, T) -> bool, p: Pair<T>, s: seq<Pair<T>>): (r: seq<Pair<T>>)
    ensures |r| == |s| + 1
    ensures multiset(r) == multiset(s) + multiset{p}
  {
    if |s| == 0 then [p]
    else if PairLess(less, s[0], p) then
      assert s == [s[0]] + s[1..];
      [s[0]] + Insert(less, p, s[1..])
    else [p] + s
  }

  function SortPairs<T>(less: (T, T) -> bool, ps: seq<Pair<T>>): (r: seq<Pair<T>>)
    ensures |r| == |ps|
    ensures multiset(r) == multiset(ps)
  {
    if |ps| == 0 then []
    else
      assert ps == [ps[0]] + ps[1..];
      Insert(less, ps[0], SortPairs(less, ps[1..]))
  }

  /** `stableSorted(by:)` */
  function StableSorted<T>(less: (T, T) -> bool, a: seq<T>): (r: seq<T>)
    ensures |r| == |a|
  {
    Elements(SortPairs(less, Enumerate(a)))
  }

  /** The offset in the input of each element of the result. */
  function SortedOffsets<T>(less: (T, T) -> bool, a: seq<T>): (os: seq<nat>)
    ensures |os| == |a|
  {
    Offsets(SortPairs(less, Enumerate(a)))
  }

  ghost predicate Strictly<T>(less: (T, T) -> bool, s: seq<Pair<T>>) {
    forall i, j :: 0 <= i < j < |s| ==> PairLess(less, s[i], s[j])
  }

  ghost predicate DistinctOffsets<T>(s: seq<Pair<T>>) {
    forall i, j :: 0 <= i < j < |s| ==> s[i].offset != s[j].offset
  }

  /** The tie-breaking comparator is a strict order, total on pairs with
      different offsets. */
  lemma PairLessIsStrictOrder<T(!new)>(less: (T, T) -> bool)
    requires StrictWeakOrder(less)
    ensures forall p :: !PairLess(less, p, p)
    ensures forall p, q, r :: PairLess(less, p, q) && PairLess(less, q, r) ==> PairLess(less, p, r)
    ensures forall p: Pair<T>, q: Pair<T> :: p.offset != q.offset ==> PairLess(less, p, q) || PairLess(less, q, p)
  {
    forall p, q, r | PairLess(less, p, q) && PairLess(less, q, r)
      ensures PairLess(less, p, r)
    {
    }
  }

  /** A strictly ordered sequence starts with an element nothing in it precedes. */
  lemma FirstIsMinimal<T(!new)>(less: (T, T) -> bool, x: seq<Pair<T>>, e: Pair<T>)
    requires StrictWeakOrder(less) && Strictly(less, x) && e in x
    ensures !PairLess(less, e, x[0])
  {
    PairLessIsStrictOrder(less);
  }

  /** Two strictly ordered arrangements of the same pairs are equal. */
  lemma {:induction false} StrictlySortedUnique<T(!new)>(less: (T, T) -> bool, x: seq<Pair<T>>, y: seq<Pair<T>>)
    requires StrictWeakOrder(less)
    requires Strictly(less, x) && Strictly(less, y) && multiset(x) == multiset(y)
    ensures x == y
    decreases |x|
  {
    assert |x| == |multiset(x)| == |multiset(y)| == |y|;
    if |x| > 0 {
      PairLessIsStrictOrder(less);
      assert y[0] in multiset(x);
      FirstIsMinimal(less, x, y[0]);
      assert x[0] in multiset(y);
      var k :| 0 <= k < |y| && y[k] == x[0];
      assert k == 0;
      assert x == [x[0]] + x[1..];
      assert y == [y[0]] + y[1..];
      assert multiset(x) == multiset{x[0]} + multiset(x[1..]);
      assert multiset(y) == multiset{y[0]} + multiset(y[1..]);
      assert multiset(x[1..]) == multiset(x) - multiset{x[0]};
      assert multiset(y[1..]) == multiset(y) - multiset{y[0]};
      StrictlySortedUnique(less, x[1..], y[1..]);
    }
  }

  lemma {:induction false} InsertKeepsOrder<T(!new)>(less: (T, T) -> bool, p: Pair<T>, s: seq<Pair<T>>)
    requires StrictWeakOrder(less) && Strictly(less, s)
    requires forall q :: q in s ==> q.offset != p.offset
    ensures Strictly(less, Insert(less, p, s))
  {
    PairLessIsStrictOrder(less);
    if |s| > 0 {
      if PairLess(less, s[0], p) {
        var rest := Insert(less, p, s[1..]);
        InsertKeepsOrder(less, p, s[1..]);
        forall k | 0 <= k < |rest|
          ensures PairLess(less, s[0], rest[k])
        {
          assert rest[k] in multiset(rest);
        }
        assert Insert(less, p, s) == [s[0]] + rest;
      } else {
        assert PairLess(less, p, s[0]);
      }
    }
  }

  lemma {:induction false} SortOrders<T(!new)>(less: (T, T) -> bool, ps: seq<Pair<T>>)
    requires StrictWeakOrder(less) && DistinctOffsets(ps)
    ensures Strictly(less, SortPairs(less, ps))
  {
    if |ps| > 0 {
      var rest := SortPairs(less, ps[1..]);
      SortOrders(less, ps[1..]);
      forall q | q in rest
        ensures q.offset != ps[0].offset
      {
        assert q in multiset(ps[1..]);
      }
      InsertKeepsOrder(less, ps[0], rest);
    }
  }

  lemma {:induction false} ElementsAppend<T>(x: seq<Pair<T>>, y: seq<Pair<T>>)
    ensures Elements(x + y) == Elements(x) + Elements(y)
  {
    if |x| > 0 {
      assert (x + y)[1..] == x[1..] + y;
      ElementsAppend(x[1..], y);
    }
  }

  lemma {:induction false} InsertElements<T>(less: (T, T) -> bool, p: Pair<T>, s: seq<Pair<T>>)
    ensures multiset(Elements(Insert(less, p, s))) == multiset(Elements(s)) + multiset{p.element}
    decreases |s|, 1
  {
    if |s| == 0 {
      assert Elements([p]) == [p.element];
    } else if PairLess(less, s[0], p) {
      InsertElementsAfterHead(less, p, s);
    } else {
      assert Insert(less, p, s) == [p] + s;
      ElementsAppend([p], s);
      assert Elements([p]) == [p.element];
    }
  }

  /** The case of `InsertElements` where `p` goes after the first pair. */
  lemma {:induction false} InsertElementsAfterHead<T>(less: (T, T) -> bool, p: Pair<T>, s: seq<Pair<T>>)
    requires |s| > 0 && PairLess(less, s[0], p)
    ensures multiset(Elements(Insert(less, p, s))) == multiset(Elements(s)) + multiset{p.element}
    decreases |s|, 0
  {
    var head := Elements([s[0]]);
    assert head == [s[0].element];
    assert s == [s[0]] + s[1..];
    ElementsAppend([s[0]], s[1..]);
    var inserted := Insert(less, p, s[1..]);
    assert Insert(less, p, s) == [s[0]] + inserted;
    InsertElements(less, p, s[1..]);
    ElementsAppend([s[0]], inserted);
  }

  lemma {:induction false} SortElements<T>(less: (T, T) -> bool, ps: seq<Pair<T>>)
    ensures multiset(Elements(SortPairs(less, ps))) == multiset(Elements(ps))
  {
    if |ps| > 0 {
      var rest := SortPairs(less, ps[1..]);
      SortElements(less, ps[1..]);
      InsertElements(less, ps[0], rest);
    }
  }

  /** The result is a permutation of the input. */
  lemma StableSortedIsPermutation<T>(less: (T, T) -> bool, a: seq<T>)
    ensures multiset(StableSorted(less, a)) == multiset(a)
  {
    SortElements(less, Enumerate(a));
    assert Elements(Enumerate(a)) == a;
  }

  /** The result is in increasing order: no element precedes an earlier one. */
  lemma StableSortedIsOrdered<T(!new)>(less: (T, T) -> bool, a: seq<T>)
    requires StrictWeakOrder(less)
    ensures var r := StableSorted(less, a);
      forall i, j :: 0 <= i < j < |r| ==> !less(r[j], r[i])
  {
    SortOrders(less, Enumerate(a));
  }

  /** Each result element is the input element at its offset, the offsets
      form a permutation, and equivalent elements keep their input order. */
  lemma StableSortedIsStable<T(!new)>(less: (T, T) -> bool, a: seq<T>)
    requires StrictWeakOrder(less)
    ensures var r, os := StableSorted(less, a), SortedOffsets(less, a);
      && (forall i :: 0 <= i < |a| ==> os[i] < |a| && r[i] == a[os[i]])
      && (forall i, j :: 0 <= i < j < |a| ==> os[i] != os[j])
      && (forall i, j :: 0 <= i < j < |a| && !less(r[i], r[j]) && !less(r[j], r[i]) ==> os[i] < os[j])
  {
    var ps := SortPairs(less, Enumerate(a));
    var r, os := StableSorted(less, a), SortedOffsets(less, a);
    assert r == Elements(ps) && os == Offsets(ps);
    forall i | 0 <= i < |a|
      ensures os[i] < |a| && r[i] == a[os[i]]
    {
      SortedPairFromInput(less, a, i);
    }
    SortOrders(less, Enumerate(a));
    PairLessIsStrictOrder(less);
    forall i, j | 0 <= i < j < |a|
      ensures os[i] != os[j]
    {
      SortedPairFromInput(less, a, i);
      SortedPairFromInput(less, a, j);
      assert PairLess(less, ps[i], ps[j]);
    }
    forall i, j | 0 <= i < j < |a| && !less(r[i], r[j]) && !less(r[j], r[i])
      ensures os[i] < os[j]
    {
      assert PairLess(less, ps[i], ps[j]);
    }
  }

  /** Every sorted pair is an enumerated pair of the input. */
  lemma SortedPairFromInput<T>(less: (T, T) -> bool, a: seq<T>, i: int)
    requires 0 <= i < |a|
    ensures |SortPairs(less, Enumerate(a))| == |a|
    ensures SortPairs(less, Enumerate(a))[i].offset < |a|
    ensures SortPairs(less, Enumerate(a))[i].element == a[SortPairs(less, Enumerate(a))[i].offset]
  {
    var ps := SortPairs(less, Enumerate(a));
    assert ps[i] in multiset(Enumerate(a));
  }

  /** Input that is already in order comes back unchanged. */
  lemma SortedInputUnchanged<T(!new)>(less: (T, T) -> bool, a: seq<T>)
    requires StrictWeakOrder(less)
    requires forall i, j :: 0 <= i < j < |a| ==> !less(a[j], a[i])
    ensures StableSorted(less, a) == a
  {
    SortOrders(less, Enumerate(a));
    StrictlySortedUnique(less, SortPairs(less, Enumerate(a)), Enumerate(a));
  }

  lemma {:induction false} EnumerateOnce<T>(a: seq<T>, p: Pair<T>)
    ensures multiset(Enumerate(a))[p] <= 1
  {
    if |a| > 0 {
      var n := |a| - 1;
      assert Enumerate(a) == Enumerate(a[..n]) + [Pair(n, a[n])];
      EnumerateOnce(a[..n], p);
      if p == Pair(n, a[n]) {
        assert p !in Enumerate(a[..n]);
      }
    }
  }

  lemma RepeatCountsTwice<T>(s: seq<T>, i: int, j: int)
    requires 0 <= i < j < |s| && s[i] == s[j]
    ensures multiset(s)[s[i]] >= 2
  {
    assert s == s[..j] + [s[j]] + s[j + 1..];
    assert s[i] in s[..j];
  }

  /** Any arrangement of the enumerated pairs that the comparator accepts
      as sorted is the one the model computes, whichever algorithm produced
      it. */
  lemma AnySortAgrees<T(!new)>(less: (T, T) -> bool, a: seq<T>, s: seq<Pair<T>>)
    requires StrictWeakOrder(less)
    requires multiset(s) == multiset(Enumerate(a))
    requires forall i, j :: 0 <= i < j < |s| ==> !PairLess(less, s[j], s[i])
    ensures s == SortPairs(less, Enumerate(a))
    ensures Elements(s) == StableSorted(less, a)
  {
    PairLessIsStrictOrder(less);
    forall i, j | 0 <= i < j < |s|
      ensures PairLess(less, s[i], s[j])
    {
      assert s[i] in multiset(Enumerate(a)) && s[j] in multiset(Enumerate(a));
      if s[i].offset == s[j].offset {
        RepeatCountsTwice(s, i, j);
        EnumerateOnce(a, s[i]);
      }
    }
    SortOrders(less, Enumerate(a));
    StrictlySortedUnique(less, s, SortPairs(less, Enumerate(a)));
  }
}
