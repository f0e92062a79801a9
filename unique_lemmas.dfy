/** Properties of `unique` and `n_unique` that relate several calls or
    several branches: idempotence of the kernel branch, agreement of the
    fast path with the kernel, the value-level count against the
    code-level one, and the edges of the `u32` range computation. */
module UniqueLemmas {
  import opened Wrappers
  import opened RevMap
  import opened Column
  import opened RangedUnique
  import opened CategoricalUnique
  import opened SeqFacts

  /** Running the kernel branch of `unique` on its own output gives the
      same codes back. */
  lemma KernelUniqueIdempotent(s: seq<Option<u32>>, u: seq<Option<u32>>, v: seq<Option<u32>>)
    requires SortedDistinctOf(u, s)
    requires SortedDistinctOf(v, u)
    ensures v == u
  {
    SortedShapeUnique(v, u);
  }

  /** A sorted shape holds each of its codes once and at most one null. */
  lemma {:induction false} SortedShapeLength(u: seq<Option<u32>>)
    requires SortedShape(u)
    ensures |u| == |CodeSet(u)| + (if HasNull(u) then 1 else 0)
    ensures Distinct(u)
    decreases |u|
  {
    if CodeSet(u) == {} {
      SortedShapeNoCodes(u);
    } else {
      SortedShapeHead(u);
      SortedShapeLength(u[1..]);
      Membership(u[1..], u[0]);
      forall i, j | 0 <= i < j < |u|
        ensures u[i] != u[j]
      {
        if i == 0 {
          assert u[j] == u[1..][j - 1];
        } else {
          assert u[i] == u[1..][i - 1] && u[j] == u[1..][j - 1];
        }
      }
    }
  }

  /** The entries of a column slice are its codes and, if present, null. */
  lemma Membership(s: seq<Option<u32>>, x: Option<u32>)
    ensures x in s <==> (x.None? && HasNull(s)) || (x.Some? && x.value in CodeSet(s))
  {
    if x.Some? && x.value in CodeSet(s) {
      var i := CodeSetWitness(s, x.value);
    }
  }

  /** When the column uses exactly the codes `0 .. n - 1` of a Local
      dictionary and holds no null, the fast path's `0 .. n - 1` is what
      the kernel branch would compute. */
  lemma FastLocalAgreesWithKernel(s: seq<Option<u32>>, n: nat, u: seq<Option<u32>>)
    requires n <= U32_MAX + 1
    requires !HasNull(s)
    requires forall c: u32 :: c in CodeSet(s) <==> c < n
    requires SortedDistinctOf(u, s)
    ensures |u| == n
    ensures forall i :: 0 <= i < n ==> u[i] == Some(i as u32)
  {
    var d := seq(n, i requires 0 <= i < n => Some(i as u32));
    assert SortedShape(d);
    assert !HasNull(d);
    forall c: u32
      ensures c in CodeSet(d) <==> c < n
    {
      if c < n {
        CodeSetMember(d, c);
      } else if c in CodeSet(d) {
        var i := CodeSetWitness(d, c);
      }
    }
    assert CodeSet(d) == CodeSet(u);
    SortedShapeUnique(d, u);
  }

  /** When the column uses exactly the keys of a Global dictionary and
      holds no null, the fast path's keys are a permutation of what the
      kernel branch would compute. */
  lemma FastGlobalAgreesWithKernel(s: seq<Option<u32>>, m: map<u32, nat>, k: seq<Option<u32>>, u: seq<Option<u32>>)
    requires !HasNull(s) && CodeSet(s) == m.Keys
    requires CodeSet(k) == m.Keys && !HasNull(k) && Distinct(k)
    requires SortedDistinctOf(u, s)
    ensures multiset(k) == multiset(u)
  {
    SortedShapeLength(u);
    forall x
      ensures x in k <==> x in u
    {
      Membership(k, x);
      Membership(u, x);
    }
    DistinctSameEntries(k, u);
  }

  /** Counting category values never exceeds counting codes; the two
      agree when no two of the codes denote the same value. */
  lemma {:induction false} ValuesOfCard(rev: RevMapping, codes: set<u32>)
    requires rev.WellFormed()
    requires forall c :: c in codes ==> rev.ValidCode(c)
    ensures |ValuesOf(rev, codes)| <= |codes|
    ensures (forall a, b :: a in codes && b in codes && a != b ==> rev.CategoryOf(a) != rev.CategoryOf(b))
            ==> |ValuesOf(rev, codes)| == |codes|
    decreases |codes|
  {
    if codes != {} {
      var c :| c in codes;
      var rest := codes - {c};
      ValuesOfCard(rev, rest);
      assert ValuesOf(rev, codes) == ValuesOf(rev, rest) + {rev.CategoryOf(c)};
      if forall a, b :: a in codes && b in codes && a != b ==> rev.CategoryOf(a) != rev.CategoryOf(b) {
        assert rev.CategoryOf(c) !in ValuesOf(rev, rest);
      }
    }
  }

  /** On the kernel paths, `n_unique` is at most the length of `unique`,
      and equal to it when the dictionary has no aliasing among the
      column's codes. */
  lemma NUniqueAtMostUnique(rev: RevMapping, s: seq<Option<u32>>, u: seq<Option<u32>>)
    requires rev.WellFormed() && AllValid(rev, s)
    requires SortedDistinctOf(u, s)
    ensures |ValuesOf(rev, CodeSet(s))| + (if HasNull(s) then 1 else 0) <= |u|
    ensures (forall a, b :: a in CodeSet(s) && b in CodeSet(s) && a != b ==> rev.CategoryOf(a) != rev.CategoryOf(b))
            ==> |ValuesOf(rev, CodeSet(s))| + (if HasNull(s) then 1 else 0) == |u|
  {
    SortedShapeLength(u);
    forall c | c in CodeSet(s)
      ensures rev.ValidCode(c)
    {
      var i := CodeSetWitness(s, c);
      assert s[i] in s;
    }
    ValuesOfCard(rev, CodeSet(s));
  }

  /** Aliasing: under a Global dictionary where ids 3 and 7 both denote
      "x", a column holding both ids counts one category value while its
      distinct codes are two. */
  lemma AliasedCodesCountOnce()
    ensures var rev := Global(map[3 := 0, 7 := 1], ["x", "x"]);
            && rev.WellFormed()
            && |ValuesOf(rev, CodeSet([Some(3), Some(7), Some(3)]))| == 1
            && |CodeSet([Some(3), Some(7), Some(3)])| == 2
  {
    var rev := Global(map[3 := 0, 7 := 1], ["x", "x"]);
    var s: seq<Option<u32>> := [Some(3), Some(7), Some(3)];
    CodeSetMember(s, 0);
    CodeSetMember(s, 1);
    assert CodeSet(s) == {3, 7};
    assert ValuesOf(rev, {3, 7}) == {"x"};
  }

  /** Dictionary `["a", "b", "c"]`, codes `[0, 2, 2, 1, null]`: the kernel
      branch of `unique` gives `[0, 1, 2, null]` and `n_unique` gives 4. */
  lemma LocalScenario(u: seq<Option<u32>>)
    requires SortedDistinctOf(u, [Some(0), Some(2), Some(2), Some(1), None])
    ensures u == [Some(0), Some(1), Some(2), None]
    ensures var s := [Some(0), Some(2), Some(2), Some(1), None];
            |ValuesOf(Local(["a", "b", "c"]), CodeSet(s))| + (if HasNull(s) then 1 else 0) == 4
  {
    var s: seq<Option<u32>> := [Some(0), Some(2), Some(2), Some(1), None];
    var e: seq<Option<u32>> := [Some(0), Some(1), Some(2), None];
    CodeSetMember(s, 0);
    CodeSetMember(s, 1);
    CodeSetMember(s, 3);
    assert CodeSet(s) == {0, 1, 2};
    CodeSetMember(e, 0);
    CodeSetMember(e, 1);
    CodeSetMember(e, 2);
    assert CodeSet(e) == {0, 1, 2};
    assert HasNull(e) && e[3] == None;
    SortedShapeUnique(u, e);
    var rev := Local(["a", "b", "c"]);
    assert ValuesOf(rev, {0, 1, 2}) == {"a", "b", "c"};
  }

  /** The `u32` edges of the kernel range: the upper bound overflows
      exactly when the largest possible code is `u32::MAX` and the column
      holds a null, and the range is inverted exactly when a non-enum
      Global dictionary has no keys. */
  lemma RangeErrorCases(col: CategoricalChunked)
    requires col.Valid()
    ensures RangeError(col) == Some(AddOverflow) <==>
              && None in col.Codes()
              && (if col.revMap.Local? || col.isEnum
                  then |col.revMap.categories| == U32_MAX
                  else col.revMap.toLocal != map[] && U32_MAX in col.revMap.toLocal)
    ensures RangeError(col) == Some(InvertedRange) <==>
              col.revMap.Global? && !col.isEnum && col.revMap.toLocal == map[]
  {
    if RangeError(col) == Some(AddOverflow) && col.revMap.Global? && !col.isEnum {
      var k :| k in col.revMap.toLocal && k + HasNulls(col) > U32_MAX;
    }
  }

  /** An inverted range arises only for a column whose entries are all
      null: a non-null code would have to be a key of the empty map. */
  lemma InvertedRangeOnlyForNulls(col: CategoricalChunked)
    requires col.Valid()
    requires RangeError(col) == Some(InvertedRange)
    ensures forall x :: x in col.Codes() ==> x == None
  {
    FlattenValid(col.revMap, col.chunks);
  }
}
