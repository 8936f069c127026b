/** `uniqueElements()` (Array.swift): the elements in order, each kept at
    its first occurrence only. */
module UniqueElements {

  ghost predicate NoDuplicates<T>(s: seq<T>) {
    forall i, j :: 0 <= i < j < |s| ==> s[i] != s[j]
  }

  /** Reference definition: the element at index i is kept exactly when it
      does not occur in `a[..i]`. */
  function FirstOccurrences<T(==)>(a: seq<T>): (res: seq<T>)
    ensures NoDuplicates(res)
    ensures forall i :: 0 <= i < |res| ==> res[i] in a
    ensures forall i :: 0 <= i < |a| ==> a[i] in res
    ensures |res| <= |a|
  {
    if |a| == 0 then []
    else
      var n := |a| - 1;
      var prev := FirstOccurrences(a[..n]);
      assert a == a[..n] + [a[n]];
      if a[n] in a[..n] then prev else prev + [a[n]]
  }

  /** Index of the first occurrence of `x` in `a`. */
  function FirstIndex<T(==)>(a: seq<T>, x: T): (i: nat)
    requires x in a
    ensures i < |a| && a[i] == x && x !in a[..i]
  {
    var n := |a| - 1;
    if x in a[..n] then
      var i := FirstIndex(a[..n], x);
      assert a[..i] == a[..n][..i];
      i
    else
      assert a == a[..n] + [a[n]];
      n
  }

  /** The loop of `uniqueElements()`, with a set of the elements seen. */
  method Unique<T(==)>(a: seq<T>) returns (res: seq<T>)
    ensures res == FirstOccurrences(a)
    ensures NoDuplicates(res)
    ensures forall i :: 0 <= i < |res| ==> res[i] in a
    ensures forall i :: 0 <= i < |a| ==> a[i] in res
  {
    var seen: set<T> := {};
    res := [];
    for i := 0 to |a|
      invariant res == FirstOccurrences(a[..i])
      invariant forall x :: x in seen <==> x in a[..i]
    {
      assert a[..i + 1][..i] == a[..i];
      if a[i] in seen {
        continue;
      }
      seen := seen + {a[i]};
      res := res + [a[i]];
    }
    assert a[..|a|] == a;
  }

  /** The kept elements appear in the order of their first occurrences. */
  lemma {:induction false} FirstOccurrencesInOrder<T>(a: seq<T>)
    ensures forall i, j :: 0 <= i < j < |FirstOccurrences(a)| ==>
      FirstIndex(a, FirstOccurrences(a)[i]) < FirstIndex(a, FirstOccurrences(a)[j])
  {
    if |a| > 0 {
      var n := |a| - 1;
      FirstOccurrencesInOrder(a[..n]);
      var prev := FirstOccurrences(a[..n]);
      var res := FirstOccurrences(a);
      forall i, j | 0 <= i < j < |res|
        ensures FirstIndex(a, res[i]) < FirstIndex(a, res[j])
      {
        assert res[i] == prev[i] && prev[i] in a[..n];
        FirstIndexOfPrefix(a, n, res[i]);
        FirstIndexOfPrefix(a, n, res[j]);
        if j < |prev| {
          assert res[j] == prev[j] && prev[j] in a[..n];
          assert FirstIndex(a[..n], prev[i]) < FirstIndex(a[..n], prev[j]);
        } else {
          assert res[j] == a[n] && a[n] !in a[..n];
        }
      }
    }
  }

  lemma FirstIndexOfPrefix<T>(a: seq<T>, n: nat, x: T)
    requires n <= |a|
    ensures x in a[..n] ==> x in a && FirstIndex(a, x) == FirstIndex(a[..n], x)
    ensures x in a && x !in a[..n] ==> FirstIndex(a, x) >= n
  {
    if x in a[..n] {
      var i := FirstIndex(a[..n], x);
      var k := FirstIndex(a, x);
      assert a[..n][..i] == a[..i];
      assert forall j :: 0 <= j < i ==> a[j] != x;
      assert forall j :: 0 <= j < k ==> a[j] != x;
    } else if x in a {
      assert forall j :: 0 <= j < n ==> a[j] != x;
    }
  }

  /** Input without duplicates comes back unchanged. */
  lemma {:induction false} DistinctUnchanged<T>(a: seq<T>)
    requires NoDuplicates(a)
    ensures FirstOccurrences(a) == a
  {
    if |a| > 0 {
      var n := |a| - 1;
      DistinctUnchanged(a[..n]);
      assert a == a[..n] + [a[n]];
    }
  }

  /** Removing duplicates twice is the same as once. */
  lemma UniqueIsIdempotent<T>(a: seq<T>)
    ensures FirstOccurrences(FirstOccurrences(a)) == FirstOccurrences(a)
  {
    DistinctUnchanged(FirstOccurrences(a));
  }
}
