/** Facts about sequences without repetitions, shared by the unique and
    value-count models. */
module SeqFacts {

  /** No two entries of `s` are equal. */
  predicate Distinct<T(==)>(s: seq<T>) {
    forall i, j :: 0 <= i < j < |s| ==> s[i] != s[j]
  }

  /** The set of entries of `s`. */
  function Entries<T>(s: seq<T>): (e: set<T>) {
    set x | x in s
  }

  lemma DistinctTail<T>(a: seq<T>)
    requires Distinct(a) && a != []
    ensures Distinct(a[1..]) && a[0] !in a[1..]
  {
    var t := a[1..];
    forall i, j | 0 <= i < j < |t|
      ensures t[i] != t[j]
    {
      assert t[i] == a[i + 1] && t[j] == a[j + 1];
    }
    forall j | 0 <= j < |t|
      ensures t[j] != a[0]
    {
      assert t[j] == a[j + 1];
    }
  }

  /** A sequence without repetitions holds each of its entries once. */
  lemma {:induction false} DistinctMultiplicity<T>(a: seq<T>, x: T)
    requires Distinct(a)
    ensures multiset(a)[x] == if x in a then 1 else 0
    decreases |a|
  {
    if a != [] {
      assert a == [a[0]] + a[1..];
      DistinctTail(a);
      DistinctMultiplicity(a[1..], x);
    }
  }

  /** A sequence that holds each entry at most once has no repetitions. */
  lemma MultiplicityDistinct<T>(a: seq<T>)
    requires forall x :: multiset(a)[x] <= 1
    ensures Distinct(a)
  {
    forall i, j | 0 <= i < j < |a|
      ensures a[i] != a[j]
    {
      assert a == a[..i] + [a[i]] + a[i + 1..j] + [a[j]] + a[j + 1..];
      assert multiset(a) == multiset(a[..i]) + multiset{a[i]} + multiset(a[i + 1..j]) + multiset{a[j]} + multiset(a[j + 1..]);
      assert multiset(a)[a[i]] >= 1 + multiset{a[j]}[a[i]];
    }
  }

  /** Two repetition-free sequences with the same entries are
      permutations of each other. */
  lemma DistinctSameEntries<T>(a: seq<T>, b: seq<T>)
    requires Distinct(a) && Distinct(b)
    requires forall x :: x in a <==> x in b
    ensures multiset(a) == multiset(b)
  {
    forall x
      ensures multiset(a)[x] == multiset(b)[x]
    {
      DistinctMultiplicity(a, x);
      DistinctMultiplicity(b, x);
    }
  }

  /** A permutation of a repetition-free sequence has no repetitions. */
  lemma PermutationDistinct<T>(a: seq<T>, b: seq<T>)
    requires Distinct(a) && multiset(a) == multiset(b)
    ensures Distinct(b)
  {
    forall x
      ensures multiset(b)[x] <= 1
    {
      DistinctMultiplicity(a, x);
    }
    MultiplicityDistinct(b);
  }

  /** A repetition-free sequence is as long as its set of entries is large. */
  lemma {:induction false} DistinctCard<T>(a: seq<T>)
    requires Distinct(a)
    ensures |Entries(a)| == |a|
    decreases |a|
  {
    if a != [] {
      DistinctTail(a);
      DistinctCard(a[1..]);
      assert Entries(a) == {a[0]} + Entries(a[1..]);
    }
  }
}
