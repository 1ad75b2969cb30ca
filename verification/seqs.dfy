/** Generic facts about sequences used by the listing: projecting a
    field out of every element (`Array.prototype.map`), permutations and
    duplicate-freedom. */
module Seqs {

  /** `s.map(f)`. */
  function Project<A, B>(s: seq<A>, f: A -> B): (r: seq<B>)
    ensures |r| == |s|
    ensures forall i :: 0 <= i < |s| ==> r[i] == f(s[i])
  {
    if |s| == 0 then [] else [f(s[0])] + Project(s[1..], f)
  }

  /** `s` without its element at index `k`. */
  function RemoveAt<T>(s: seq<T>, k: nat): (r: seq<T>)
    requires k < |s|
    ensures |r| == |s| - 1
    ensures forall i :: 0 <= i < k ==> r[i] == s[i]
    ensures forall i :: k <= i < |r| ==> r[i] == s[i + 1]
    ensures multiset(s) == multiset(r) + multiset{s[k]}
  {
    assert s == s[..k] + [s[k]] + s[k + 1..];
    s[..k] + s[k + 1..]
  }

  lemma ProjectRemoveAt<A, B>(s: seq<A>, k: nat, f: A -> B)
    requires k < |s|
    ensures Project(RemoveAt(s, k), f) == RemoveAt(Project(s, f), k)
  {
    var l, r := Project(RemoveAt(s, k), f), RemoveAt(Project(s, f), k);
    assert |l| == |r|;
    assert forall i :: 0 <= i < |l| ==> l[i] == r[i];
  }

  lemma MultisetCancel<T>(m: multiset<T>, n: multiset<T>, x: T)
    requires m + multiset{x} == n + multiset{x}
    ensures m == n
  {
    assert m == (m + multiset{x}) - multiset{x};
    assert n == (n + multiset{x}) - multiset{x};
  }

  /** Rearranging a sequence rearranges its projection the same way. */
  lemma {:induction false} ProjectPermutation<A, B>(a: seq<A>, b: seq<A>, f: A -> B)
    requires multiset(a) == multiset(b)
    ensures multiset(Project(a, f)) == multiset(Project(b, f))
    decreases |a|
  {
    if |a| == 0 {
      assert |b| == |multiset(b)| == 0;
    } else {
      assert a[0] in multiset(b);
      var k :| 0 <= k < |b| && b[k] == a[0];
      var a', b' := RemoveAt(a, 0), RemoveAt(b, k);
      MultisetCancel(multiset(a'), multiset(b'), a[0]);
      ProjectPermutation(a', b', f);
      ProjectRemoveAt(a, 0, f);
      ProjectRemoveAt(b, k, f);
      var pa, pb := Project(a, f), Project(b, f);
      assert multiset(pa) == multiset(RemoveAt(pa, 0)) + multiset{pa[0]};
      assert multiset(pb) == multiset(RemoveAt(pb, k)) + multiset{pb[k]};
    }
  }

  /** Prepending an element not already present keeps a sequence
      duplicate-free. */
  lemma ConsNoDuplicates<T>(x: T, s: seq<T>)
    requires x !in s && NoDuplicates(s)
    ensures NoDuplicates([x] + s)
  {
    var r := [x] + s;
    forall i, j | 0 <= i < j < |r|
      ensures r[i] != r[j]
    {
      assert r[j] == s[j - 1];
      if i > 0 {
        assert r[i] == s[i - 1];
      }
    }
  }

  /** `sub` can be obtained from `s` by deleting elements. */
  predicate IsSubsequence<T(==)>(sub: seq<T>, s: seq<T>)
  {
    if |sub| == 0 then true
    else if |s| == 0 then false
    else (sub[0] == s[0] && IsSubsequence(sub[1..], s[1..])) || IsSubsequence(sub, s[1..])
  }

  /** No element occurs twice. */
  predicate NoDuplicates<T(==)>(s: seq<T>)
  {
    forall i, j :: 0 <= i < j < |s| ==> s[i] != s[j]
  }

  lemma NoDuplicatesTail<T>(s: seq<T>)
    requires |s| > 0 && NoDuplicates(s)
    ensures NoDuplicates(s[1..]) && s[0] !in s[1..]
  {
    var t := s[1..];
    forall i, j | 0 <= i < j < |t|
      ensures t[i] != t[j]
    {
      assert t[i] == s[i + 1] && t[j] == s[j + 1];
    }
  }

  /** A duplicate-free sequence holds every value at most once. */
  lemma {:induction false} NoDuplicatesSingleOccurrences<T>(s: seq<T>, x: T)
    requires NoDuplicates(s)
    ensures multiset(s)[x] <= 1
    decreases |s|
  {
    if |s| > 0 {
      NoDuplicatesTail(s);
      NoDuplicatesSingleOccurrences(s[1..], x);
      var t := RemoveAt(s, 0);
      assert t == s[1..];
      if x == s[0] {
        assert multiset(t)[x] == 0;
      }
    }
  }

  /** A value at two different indices occurs at least twice. */
  lemma RepeatedValueOccursTwice<T>(s: seq<T>, i: nat, j: nat)
    requires i < j < |s| && s[i] == s[j]
    ensures multiset(s)[s[i]] >= 2
  {
    var t := RemoveAt(s, j);
    assert t[i] == s[i];
    assert s[i] in multiset(t);
  }

  /** A sequence is duplicate-free exactly when it holds every value at
      most once. */
  lemma NoDuplicatesIffSingleOccurrences<T>(s: seq<T>)
    ensures NoDuplicates(s) <==> forall x :: multiset(s)[x] <= 1
  {
    if NoDuplicates(s) {
      forall x
        ensures multiset(s)[x] <= 1
      {
        NoDuplicatesSingleOccurrences(s, x);
      }
    } else {
      var i, j :| 0 <= i < j < |s| && s[i] == s[j];
      RepeatedValueOccursTwice(s, i, j);
    }
  }

  lemma PermutationKeepsNoDuplicates<T>(a: seq<T>, b: seq<T>)
    requires multiset(a) == multiset(b) && NoDuplicates(a)
    ensures NoDuplicates(b)
  {
    NoDuplicatesIffSingleOccurrences(a);
    NoDuplicatesIffSingleOccurrences(b);
  }
}
