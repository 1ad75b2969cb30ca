/** Ordering of the post listing: newest date first, by plain string
    comparison of the `date` fields (src/lib/posts.ts:44). */
module DateSort {
  import opened PostData
  import Strings
  import Seqs

  /** The comparator handed to `Array.prototype.sort`: 1 ("b first") when
      `a`'s date is smaller, -1 ("a first") otherwise. It never answers 0,
      not even for a post compared with itself, so ECMAScript does not
      call it consistent and leaves the whole order implementation-defined.
      The sorts below do what engines' comparison sorts do: decide by the
      comparator's sign alone, which agrees with date order whenever two
      dates differ. Nothing below says anything about the order of equal
      dates. */
  function Compare(a: Post, b: Post): (c: int)
    ensures c == 1 || c == -1
    ensures c == 1 <==> Strings.Less(a.date, b.date)
  {
    if Strings.Less(a.date, b.date) then 1 else -1
  }

  /** The comparator is not reflexive: a post compared with itself is
      placed before itself. */
  lemma CompareNotReflexive(a: Post)
    ensures Compare(a, a) == -1
  {
    Strings.LessIrreflexive(a.date);
  }

  /** For two different dates the comparator is antisymmetric and its
      sign puts the later date first. */
  lemma CompareAgreesWithDates(a: Post, b: Post)
    requires a.date != b.date
    ensures Compare(a, b) == -Compare(b, a)
    ensures Compare(a, b) < 0 <==> Strings.Less(b.date, a.date)
  {
    Strings.LessConnected(a.date, b.date);
    if Strings.Less(a.date, b.date) {
      Strings.LessAsymmetric(a.date, b.date);
    }
  }

  /** Dates never increase from left to right. */
  predicate SortedByDateDesc(s: seq<Post>)
  {
    forall i, j :: 0 <= i < j < |s| ==> !Strings.Less(s[i].date, s[j].date)
  }

  /** No post of `s` is dated later than `h`. */
  predicate DatedNoLaterThan(h: Post, s: seq<Post>)
  {
    forall y :: y in s ==> !Strings.Less(h.date, y.date)
  }

  lemma PrependSorted(h: Post, t: seq<Post>)
    requires SortedByDateDesc(t) && DatedNoLaterThan(h, t)
    ensures SortedByDateDesc([h] + t)
  {
    var r := [h] + t;
    forall i, j | 0 <= i < j < |r|
      ensures !Strings.Less(r[i].date, r[j].date)
    {
      assert r[j] == t[j - 1];
      if i > 0 {
        assert r[i] == t[i - 1];
      }
    }
  }

  lemma SortedTail(s: seq<Post>)
    requires |s| > 0 && SortedByDateDesc(s)
    ensures SortedByDateDesc(s[1..]) && DatedNoLaterThan(s[0], s[1..])
  {
    var t := s[1..];
    forall i, j | 0 <= i < j < |t|
      ensures !Strings.Less(t[i].date, t[j].date)
    {
      assert t[i] == s[i + 1] && t[j] == s[j + 1];
    }
    forall y | y in t
      ensures !Strings.Less(s[0].date, y.date)
    {
      var k :| 0 <= k < |t| && t[k] == y;
      assert s[k + 1] == y;
    }
  }

  /** A post dated no earlier than the head of a sorted listing is dated
      no earlier than any of it. */
  lemma HeadBoundsAll(x: Post, s: seq<Post>)
    requires |s| > 0 && SortedByDateDesc(s) && !Strings.Less(x.date, s[0].date)
    ensures DatedNoLaterThan(x, s)
  {
    forall y | y in s
      ensures !Strings.Less(x.date, y.date)
    {
      var k :| 0 <= k < |s| && s[k] == y;
      if k > 0 {
        Strings.NotLessTransitive(x.date, s[0].date, y.date);
      }
    }
  }

  /** A bound on every element of `s` and on `x` bounds every element of
      any rearrangement of `s` plus `x`. */
  lemma BoundSurvivesInsertion(h: Post, x: Post, s: seq<Post>, r: seq<Post>)
    requires DatedNoLaterThan(h, s) && !Strings.Less(h.date, x.date)
    requires multiset(r) == multiset(s) + multiset{x}
    ensures DatedNoLaterThan(h, r)
  {
    forall y | y in r
      ensures !Strings.Less(h.date, y.date)
    {
      assert y in multiset(r);
      if y != x {
        assert y in multiset(s);
      }
    }
  }

  /** Inserts `x` into a listing that is already in order, guided only by
      the sign of `Compare`. */
  function Insert(x: Post, s: seq<Post>): (r: seq<Post>)
    requires SortedByDateDesc(s)
    ensures multiset(r) == multiset(s) + multiset{x}
    ensures SortedByDateDesc(r)
  {
    if |s| == 0 then [x]
    else if Compare(x, s[0]) < 0 then
      HeadBoundsAll(x, s);
      PrependSorted(x, s);
      [x] + s
    else
      SortedTail(s);
      var rest := Insert(x, s[1..]);
      Strings.LessAsymmetric(x.date, s[0].date);
      BoundSurvivesInsertion(s[0], x, s[1..], rest);
      PrependSorted(s[0], rest);
      assert s == [s[0]] + s[1..];
      [s[0]] + rest
  }

  /** Insertion sort of the collected posts, newest first. */
  function SortByDateDesc(s: seq<Post>): (r: seq<Post>)
    ensures multiset(r) == multiset(s)
    ensures SortedByDateDesc(r)
  {
    if |s| == 0 then []
    else
      assert s == [s[0]] + s[1..];
      Insert(s[0], SortByDateDesc(s[1..]))
  }

  function DateOf(p: Post): (d: string)
  {
    p.date
  }

  /** The sequence of dates of a listing. */
  function Dates(s: seq<Post>): (ds: seq<string>)
  {
    Seqs.Project(s, DateOf)
  }

  /** Dates never increase, on a plain sequence of strings. */
  predicate NonIncreasing(ds: seq<string>)
  {
    forall i, j :: 0 <= i < j < |ds| ==> !Strings.Less(ds[i], ds[j])
  }

  /** The first string of a non-increasing sequence is no smaller than
      any of its strings. */
  lemma HeadIsGreatest(x: seq<string>, v: string)
    requires NonIncreasing(x) && v in x
    ensures !Strings.Less(x[0], v)
  {
    var m :| 0 <= m < |x| && x[m] == v;
    if m == 0 {
      Strings.LessIrreflexive(v);
    }
  }

  lemma NonIncreasingTail(x: seq<string>)
    requires |x| > 0 && NonIncreasing(x)
    ensures NonIncreasing(x[1..])
  {
    forall i, j | 0 <= i < j < |x| - 1
      ensures !Strings.Less(x[1..][i], x[1..][j])
    {
      assert x[1..][i] == x[i + 1] && x[1..][j] == x[j + 1];
    }
  }

  /** Two non-increasing arrangements of the same strings are the same
      sequence. */
  lemma {:induction false} NonIncreasingUnique(x: seq<string>, y: seq<string>)
    requires multiset(x) == multiset(y)
    requires NonIncreasing(x) && NonIncreasing(y)
    ensures x == y
    decreases |x|
  {
    assert |x| == |multiset(x)| == |y|;
    if |x| > 0 {
      assert x[0] in multiset(y) && y[0] in multiset(x);
      HeadIsGreatest(y, x[0]);
      HeadIsGreatest(x, y[0]);
      Strings.NotLessAntisymmetric(x[0], y[0]);
      var x', y' := Seqs.RemoveAt(x, 0), Seqs.RemoveAt(y, 0);
      assert x' == x[1..] && y' == y[1..];
      Seqs.MultisetCancel(multiset(x'), multiset(y'), x[0]);
      NonIncreasingTail(x);
      NonIncreasingTail(y);
      NonIncreasingUnique(x', y');
      assert x == [x[0]] + x' && y == [y[0]] + y';
    }
  }

  /** A listing is date-sorted exactly when its sequence of dates is
      non-increasing. */
  lemma SortedIffDatesNonIncreasing(s: seq<Post>)
    ensures SortedByDateDesc(s) <==> NonIncreasing(Dates(s))
  {
    var ds := Dates(s);
    assert forall i :: 0 <= i < |s| ==> ds[i] == s[i].date;
  }

  /** The comparator decides the dates' order completely: any two
      date-sorted arrangements of the same posts list the same dates in
      the same order. Only which of several equally dated posts comes
      first is left open. */
  lemma SortedArrangementsAgreeOnDates(a: seq<Post>, b: seq<Post>)
    requires multiset(a) == multiset(b)
    requires SortedByDateDesc(a) && SortedByDateDesc(b)
    ensures Dates(a) == Dates(b)
  {
    Seqs.ProjectPermutation(a, b, DateOf);
    SortedIffDatesNonIncreasing(a);
    SortedIffDatesNonIncreasing(b);
    NonIncreasingUnique(Dates(a), Dates(b));
  }

  /** Two posts with the same date may appear in either order: the
      ordering requirement holds for both. */
  lemma EqualDatesEitherOrder(a: Post, b: Post)
    requires a.date == b.date
    ensures SortedByDateDesc([a, b]) && SortedByDateDesc([b, a])
  {
    Strings.LessIrreflexive(a.date);
  }
}
